/**
 * What the parser accepts and what it builds: a text is accepted exactly
 * when it is four numerals of one to three digits joined by dots, then
 * '/' and a numeral of one or two digits, with every octet at most 255 and
 * the prefix length at most 32; anything else is the error "invalid cidr".
 * The text printed in CIDR notation parses back to the same value.
 */
module Parsing {
  import opened Wrappers
  import opened Bits
  import opened Numerals
  import opened Grammar
  import opened Ipv4
  import opened Masks
  import opened Blocks
  import opened Renderings

  /** s is written as the pattern demands, with the groups g. */
  predicate Spells(s: string, g: seq<string>)
  {
    Fits(g, Widths) && Join(g, Separators) == s
  }

  /** The numbers of the groups are within the limits: octets up to 255, prefix length up to 32. */
  predicate InRange(g: seq<string>)
    requires Fits(g, Widths)
  {
    Value(g[0]) <= 255 && Value(g[1]) <= 255 && Value(g[2]) <= 255 && Value(g[3]) <= 255 && Value(g[4]) <= 32
  }

  /** The value the program builds from groups within the limits. */
  function Built(g: seq<string>): Cidr
    requires Fits(g, Widths) && InRange(g)
  {
    SmallWord(Value(g[4]));
    Cidr(Pack(Word(Value(g[0])), Word(Value(g[1])), Word(Value(g[2])), Word(Value(g[3]))), Mask(Word(Value(g[4]))))
  }

  lemma SeparatorsAreNotDigits()
    ensures NoDigits(Separators)
  {
  }

  lemma AcceptInRange(g: seq<string>)
    requires Fits(g, Widths)
    ensures Accept(g) == if InRange(g) then Ok(Built(g)) else Err(Invalid)
  {
    var n := Numbers(g);
    assert WithinLimits(n) <==> InRange(g);
  }

  /**
   * A text written with the groups g is accepted exactly when their numbers
   * are within the limits, and then it yields the address packed from the
   * four octets, most significant first, and the mask of the prefix length.
   */
  lemma ParseSpelled(s: string, g: seq<string>)
    requires Spells(s, g)
    ensures InRange(g) ==> Cidr.Parse(s) == Ok(Built(g))
    ensures !InRange(g) ==> Cidr.Parse(s) == Err(Invalid)
  {
    SeparatorsAreNotDigits();
    ScanComplete(g, Widths, Separators);
    AcceptInRange(g);
  }

  /** A text not written as the pattern demands is rejected. */
  lemma ParseUnspelled(s: string)
    requires forall g :: !Spells(s, g)
    ensures Cidr.Parse(s) == Err(Invalid)
  {
    match Scan(s, Widths, Separators)
    case None =>
    case Some(g) =>
      assert Spells(s, g);
  }

  /**
   * Parse succeeds exactly on the texts of the pattern whose numbers are
   * within the limits, and every failure is the error "invalid cidr".
   */
  lemma ParseOk(s: string)
    ensures Cidr.Parse(s).Ok? <==> exists g :: Spells(s, g) && InRange(g)
    ensures Cidr.Parse(s).Err? ==> Cidr.Parse(s).error == Invalid
  {
    var r := Scan(s, Widths, Separators);
    if r.Some? {
      AcceptInRange(r.value);
      assert Spells(s, r.value);
    }
    if !Cidr.Parse(s).Ok? {
      forall g | Spells(s, g)
        ensures !InRange(g)
      {
        ParseSpelled(s, g);
      }
    }
  }

  // ---------------------------------------------------------------------
  // Printing and parsing back

  /** The groups the CIDR notation of c is written with. */
  function CidrGroups(c: Cidr): seq<string>
  {
    Fields(c.address) + [Dec(PrefixLength(c.netmask))]
  }

  lemma CidrGroupsSpell(c: Cidr, p: bv32)
    requires p <= 32 && c.netmask == Mask(p)
    ensures Spells(c.CidrString(), CidrGroups(c))
  {
    PrefixOfMask(p);
    DecLength(p as nat);
    FieldsFit(c.address);
    FitsAppend(Fields(c.address), [Dec(p as nat)], Quad, [2]);
    assert Quad + [2] == Widths;
    assert Separators == Dots + ['/'] + "";
    JoinAppend(Fields(c.address), [Dec(p as nat)], Dots, '/', "");
    DottedJoin(c.address);
  }

  lemma OctetValue(o: bv32)
    requires o <= 255
    ensures o as nat <= 255
  {
  }

  lemma GroupsInRange(c: Cidr, p: bv32)
    requires p <= 32 && c.netmask == Mask(p)
    ensures Fits(CidrGroups(c), Widths) && InRange(CidrGroups(c))
  {
    CidrGroupsSpell(c, p);
    PrefixOfMask(p);
    var g, o := CidrGroups(c), Octets(c.address);
    OctetsBounded(c.address);
    assert g[0] == Fields(c.address)[0] && g[1] == Fields(c.address)[1];
    assert g[2] == Fields(c.address)[2] && g[3] == Fields(c.address)[3];
    OctetValue(o[0]);
    OctetValue(o[1]);
    OctetValue(o[2]);
    OctetValue(o[3]);
  }

  lemma BuiltFromFields(c: Cidr, p: bv32)
    requires p <= 32 && c.netmask == Mask(p)
    ensures Fits(CidrGroups(c), Widths) && InRange(CidrGroups(c)) && Built(CidrGroups(c)) == c
  {
    GroupsInRange(c, p);
    PrefixOfMask(p);
    var g, o := CidrGroups(c), Octets(c.address);
    assert g[0] == Fields(c.address)[0] && g[1] == Fields(c.address)[1];
    assert g[2] == Fields(c.address)[2] && g[3] == Fields(c.address)[3];
    WordOfValue(o[0]);
    WordOfValue(o[1]);
    WordOfValue(o[2]);
    WordOfValue(o[3]);
    WordOfValue(p);
    PackOctets(c.address);
  }

  /**
   * The CIDR notation of a value whose mask has a prefix length parses
   * back to that value: address and mask are both recovered.
   */
  lemma ParseCidrString(c: Cidr, p: bv32)
    requires p <= 32 && c.netmask == Mask(p)
    ensures Cidr.Parse(c.CidrString()) == Ok(c)
  {
    CidrGroupsSpell(c, p);
    BuiltFromFields(c, p);
    ParseSpelled(c.CidrString(), CidrGroups(c));
  }

  /** Every value the parser yields prints in CIDR notation and parses back to itself. */
  lemma ParsePrintParse(s: string, c: Cidr)
    requires Cidr.Parse(s) == Ok(c)
    ensures Cidr.Parse(c.CidrString()) == Ok(c)
  {
    ParseOk(s);
    var g :| Spells(s, g) && InRange(g);
    ParseSpelled(s, g);
    SmallWord(Value(g[4]));
    ParseCidrString(c, Word(Value(g[4])));
  }
}
