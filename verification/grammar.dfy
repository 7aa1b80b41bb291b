/**
 * The anchored pattern of the address parser, as a hand-written scanner.
 *
 * A pattern here is a list of digit groups separated by fixed characters:
 * group i holds between 1 and widths[i] ASCII digits, and seps[i] sits
 * between group i and group i + 1. The text must be exactly that, from its
 * first character to its last. Since no separator is a digit, every digit
 * group of a matching text is the whole run of digits it starts with, so
 * the scanner never needs to backtrack.
 */
module Grammar {
  import opened Wrappers
  import opened Numerals

  /** Length of the run of digits at the start of s. */
  function DigitRun(s: string): (n: nat)
    ensures n <= |s|
    ensures forall i :: 0 <= i < n ==> IsDigit(s[i])
    ensures n < |s| ==> !IsDigit(s[n])
  {
    if s == [] || !IsDigit(s[0]) then 0 else 1 + DigitRun(s[1..])
  }

  predicate NoDigits(seps: string)
  {
    forall i :: 0 <= i < |seps| ==> !IsDigit(seps[i])
  }

  /** The groups g have the lengths widths allows and consist of digits. */
  predicate Fits(g: seq<string>, widths: seq<nat>)
  {
    |g| == |widths| &&
    forall i :: 0 <= i < |g| ==> 1 <= |g[i]| <= widths[i] && AllDigits(g[i])
  }

  /** The groups g written one after the other with the separators in between. */
  function Join(g: seq<string>, seps: string): string
    requires |g| == |seps| + 1
    decreases |seps|
  {
    if seps == [] then g[0] else g[0] + [seps[0]] + Join(g[1..], seps[1..])
  }

  /** The capture groups of s, if s matches the pattern. */
  function Scan(s: string, widths: seq<nat>, seps: string): (r: Option<seq<string>>)
    requires |widths| == |seps| + 1
    ensures r.Some? ==> Fits(r.value, widths) && Join(r.value, seps) == s
    decreases |seps|
  {
    var n := DigitRun(s);
    if n == 0 || n > widths[0] then None
    else if seps == [] then
      if n == |s| then Some([s]) else None
    else if n == |s| || s[n] != seps[0] then None
    else
      match Scan(s[n + 1..], widths[1..], seps[1..])
      case None => None
      case Some(rest) =>
        var g := [s[..n]] + rest;
        assert g[1..] == rest;
        assert s == s[..n] + [seps[0]] + s[n + 1..];
        Some(g)
  }

  lemma FitsAppend(g: seq<string>, h: seq<string>, widths: seq<nat>, more: seq<nat>)
    requires Fits(g, widths) && Fits(h, more)
    ensures Fits(g + h, widths + more)
  {
    var all, bounds := g + h, widths + more;
    forall i | |g| <= i < |all|
      ensures 1 <= |all[i]| <= bounds[i] && AllDigits(all[i])
    {
      assert all[i] == h[i - |g|] && bounds[i] == more[i - |g|];
    }
  }

  /** Joining two lists of groups with one more separator between them. */
  lemma {:induction false} JoinAppend(g: seq<string>, h: seq<string>, seps: string, x: char, more: string)
    requires |g| == |seps| + 1 && |h| == |more| + 1
    ensures Join(g + h, seps + [x] + more) == Join(g, seps) + [x] + Join(h, more)
    decreases |seps|
  {
    var all := seps + [x] + more;
    if seps == [] {
      assert all == [x] + more;
      assert (g + h)[1..] == h;
    } else {
      assert (g + h)[1..] == g[1..] + h;
      assert all[1..] == seps[1..] + [x] + more;
      JoinAppend(g[1..], h, seps[1..], x, more);
    }
  }

  /** The digit run at the start of a joined text is exactly its first group. */
  lemma FirstGroup(g: seq<string>, seps: string)
    requires |g| == |seps| + 1 && 1 <= |g[0]| && AllDigits(g[0]) && NoDigits(seps)
    ensures DigitRun(Join(g, seps)) == |g[0]|
    ensures Join(g, seps)[..|g[0]|] == g[0]
  {
    var s := Join(g, seps);
    if seps != [] {
      assert s[|g[0]|] == seps[0];
    }
    DigitRunOfPrefix(s, |g[0]|);
  }

  /** A run of k digits followed by the end or by a non-digit is the digit run. */
  lemma {:induction false} DigitRunOfPrefix(s: string, k: nat)
    requires k <= |s|
    requires forall i :: 0 <= i < k ==> IsDigit(s[i])
    requires k < |s| ==> !IsDigit(s[k])
    ensures DigitRun(s) == k
    decreases k
  {
    if k > 0 {
      DigitRunOfPrefix(s[1..], k - 1);
    }
  }

  /**
   * Completeness of the scanner: every way of writing s as fitting groups
   * with the separators in between is found, so together with the
   * postcondition of Scan, Scan(s) == Some(g) exactly when s is g joined.
   */
  lemma {:induction false} ScanComplete(g: seq<string>, widths: seq<nat>, seps: string)
    requires |widths| == |seps| + 1 && NoDigits(seps) && Fits(g, widths)
    ensures Scan(Join(g, seps), widths, seps) == Some(g)
    decreases |seps|
  {
    var s := Join(g, seps);
    FirstGroup(g, seps);
    var n := |g[0]|;
    if seps != [] {
      var t := Join(g[1..], seps[1..]);
      assert s == g[0] + [seps[0]] + t;
      assert s[n + 1..] == t;
      assert NoDigits(seps[1..]);
      assert Fits(g[1..], widths[1..]);
      ScanComplete(g[1..], widths[1..], seps[1..]);
      assert g == [s[..n]] + g[1..];
    } else {
      assert g == [s];
    }
  }
}
