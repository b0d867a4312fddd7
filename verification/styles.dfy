/**
  The style maps the HTML parser builds for each child element: a copy of
  the parent's map, the two font-size bookkeeping keys, the flag a
  formatting tag implies, the forced pixel font size of an already segmented
  text tag, and finally the tag's inline `style` declarations, the last one
  for a key winning.
*/
module Styles {
  import opened Common

  /** A value in a style map: the parser stores Python ints, strings and booleans. */
  datatype StyleVal = Num(n: int) | Str(s: string) | Flag(b: bool)

  type StyleMap = map<string, StyleVal>

  /** The external table from tag name to default font size. */
  type SizeTable = map<string, int>

  /** One inline declaration, as the CSS parser reports it: property name and value. */
  type Declaration = (string, string)

  const DefaultTagSize: int := 16
  const TextTagSize: string := "text-tag-size"
  const ParentTagSize: string := "parent-tag-size"
  const FontSize: string := "font-size"

  /** The default font size of a tag, 16 when the table has no entry for it. */
  function TagSize(sizes: SizeTable, name: string): (r: int)
    ensures name in sizes ==> r == sizes[name]
    ensures name !in sizes ==> r == DefaultTagSize
  {
    Get(sizes, name, DefaultTagSize)
  }

  // ---------- inheritance ----------

  /**
    A child starts from a copy of its parent's styles, with its own table
    size and its parent's table size (16 when the parent has none).
  */
  function Inherit(parent: StyleMap, sizes: SizeTable, name: string): (r: StyleMap)
    ensures r.Keys == parent.Keys + {TextTagSize, ParentTagSize}
    ensures r[TextTagSize] == Num(TagSize(sizes, name))
    ensures TextTagSize in parent ==> r[ParentTagSize] == parent[TextTagSize]
    ensures TextTagSize !in parent ==> r[ParentTagSize] == Num(DefaultTagSize)
    ensures forall k :: k in parent && k != TextTagSize && k != ParentTagSize ==> r[k] == parent[k]
  {
    parent[TextTagSize := Num(TagSize(sizes, name))][ParentTagSize := Get(parent, TextTagSize, Num(DefaultTagSize))]
  }

  // ---------- formatting tags ----------

  /** The flag a formatting tag sets: `i` italic, `b` and `strong` bold, `u` underline. */
  function ShorthandFlag(name: string): (r: Option<string>)
    ensures r == Some("italic") <==> name == "i"
    ensures r == Some("bold") <==> name == "b" || name == "strong"
    ensures r == Some("underline") <==> name == "u"
    ensures r.Some? <==> name == "i" || name == "b" || name == "strong" || name == "u"
  {
    if name == "i" then Some("italic")
    else if name == "b" || name == "strong" then Some("bold")
    else if name == "u" then Some("underline")
    else None
  }

  /** The key `k` is added, dropped or given another value between `a` and `b`. */
  predicate Changed(a: StyleMap, b: StyleMap, k: string)
  {
    (k in a) != (k in b) || (k in a && k in b && a[k] != b[k])
  }

  /**
    A formatting tag sets its one flag to true; every other tag leaves the
    map alone.  In both cases no key but that flag changes.
  */
  function Shorthand(st: StyleMap, name: string): (r: StyleMap)
    ensures ShorthandFlag(name).Some? ==> var f := ShorthandFlag(name).value;
      r.Keys == st.Keys + {f} && r[f] == Flag(true)
    ensures ShorthandFlag(name).None? ==> r == st
    ensures forall k :: Changed(st, r, k) ==> ShorthandFlag(name) == Some(k)
  {
    match ShorthandFlag(name)
    case Some(f) => st[f := Flag(true)]
    case None => st
  }

  // ---------- Python's str(int) ----------

  /** The decimal digit character for `d`. */
  function DigitChar(d: nat): (c: char)
    requires d < 10
    ensures '0' <= c <= '9' && (c as int) - ('0' as int) == d
  {
    (('0' as int) + d) as char
  }

  predicate IsDigit(c: char)
  {
    '0' <= c <= '9'
  }

  predicate AllDigits(s: string)
  {
    forall i :: 0 <= i < |s| ==> IsDigit(s[i])
  }

  /** The decimal digits of a natural number, without leading zeros. */
  function Digits(n: nat): (r: string)
    ensures |r| > 0 && AllDigits(r)
    ensures |r| > 1 ==> r[0] != '0'
    decreases n
  {
    if n < 10 then [DigitChar(n)] else Digits(n / 10) + [DigitChar(n % 10)]
  }

  /** The number a string of decimal digits denotes. */
  function DigitsValue(s: string): nat
    requires AllDigits(s)
  {
    if |s| == 0 then 0
    else DigitsValue(s[..|s| - 1]) * 10 + ((s[|s| - 1] as int) - ('0' as int))
  }

  /** At least one digit, and no leading zero unless the number is zero itself. */
  predicate CanonicalDigits(s: string)
  {
    |s| > 0 && AllDigits(s) && (|s| > 1 ==> s[0] != '0')
  }

  /** The form `str(int)` prints: canonical digits, after a minus sign only when not zero. */
  predicate Canonical(s: string)
  {
    if |s| > 0 && s[0] == '-' then CanonicalDigits(s[1..]) && s[1..] != "0"
    else CanonicalDigits(s)
  }

  /** Python's `str(n)` on an int: an optional minus sign and the digits. */
  function Decimal(n: int): (r: string)
    ensures Canonical(r)
  {
    if n < 0 then
      var d := Digits(-n);
      assert ("-" + d)[1..] == d;
      assert d != "0" by { DigitsRoundTrip(-n); }
      "-" + d
    else Digits(n)
  }

  /** Reading a decimal back: an optional minus sign followed by at least one digit. */
  function ReadDecimal(s: string): (r: Option<int>)
  {
    if |s| > 1 && s[0] == '-' && AllDigits(s[1..]) then Some(-(DigitsValue(s[1..]) as int))
    else if |s| > 0 && AllDigits(s) then Some(DigitsValue(s))
    else None
  }

  lemma {:induction false} DigitsRoundTrip(n: nat)
    ensures DigitsValue(Digits(n)) == n
    decreases n
  {
    if n >= 10 {
      var d := Digits(n / 10);
      DigitsRoundTrip(n / 10);
      assert (d + [DigitChar(n % 10)])[..|d|] == d;
    }
  }

  /** Writing an int in decimal and reading it back gives the int. */
  lemma DecimalRoundTrip(n: int)
    ensures ReadDecimal(Decimal(n)) == Some(n)
  {
    if n < 0 {
      DigitsRoundTrip(-n);
      assert ("-" + Digits(-n))[1..] == Digits(-n);
    } else {
      DigitsRoundTrip(n);
      assert Digits(n)[0] != '-';
    }
  }

  /** Canonical digits are the digits of the number they denote, so no other text denotes it. */
  lemma {:induction false} CanonicalDigitsAreDigits(s: string)
    requires CanonicalDigits(s)
    ensures s == Digits(DigitsValue(s))
    decreases |s|
  {
    var c := s[|s| - 1];
    var d := (c as int) - ('0' as int);
    assert IsDigit(c);
    if |s| == 1 {
      assert DigitsValue(s[..0]) == 0;
      assert DigitChar(d) == c;
    } else {
      var p := s[..|s| - 1];
      assert p[0] == s[0];
      assert CanonicalDigits(p);
      CanonicalDigitsAreDigits(p);
      var v := DigitsValue(p);
      assert v != 0 by { assert Digits(0)[0] == '0'; }
      assert DigitsValue(s) == v * 10 + d;
      assert DigitsValue(s) / 10 == v && DigitsValue(s) % 10 == d;
      assert DigitChar(d) == c;
      assert p + [c] == s;
    }
  }

  /** A canonical text reads back as a number whose decimal text it is. */
  lemma CanonicalRoundTrip(s: string)
    requires Canonical(s)
    ensures ReadDecimal(s).Some? && Decimal(ReadDecimal(s).value) == s
  {
    if |s| > 0 && s[0] == '-' {
      var t := s[1..];
      CanonicalDigitsAreDigits(t);
      assert DigitsValue(t) != 0;
      assert "-" + t == s;
    } else {
      CanonicalDigitsAreDigits(s);
    }
  }

  /** Two canonical texts that read back as the same number are the same text. */
  lemma CanonicalUnique(a: string, b: string)
    requires Canonical(a) && Canonical(b) && ReadDecimal(a) == ReadDecimal(b)
    ensures a == b
  {
    CanonicalRoundTrip(a);
    CanonicalRoundTrip(b);
  }

  /** The pixel font size the parser forces on an already segmented text tag. */
  function PixelSize(sizes: SizeTable, name: string): (r: string)
    ensures |r| > 2 && r[|r| - 2..] == "px"
    ensures ReadDecimal(r[..|r| - 2]) == Some(TagSize(sizes, name))
    ensures Canonical(r[..|r| - 2])
  {
    var digits := Decimal(TagSize(sizes, name));
    DecimalRoundTrip(TagSize(sizes, name));
    assert (digits + "px")[..|digits|] == digits;
    digits + "px"
  }

  /** Sets `font-size` to the tag's table size in pixels; nothing else changes. */
  function ForceFontSize(st: StyleMap, sizes: SizeTable, name: string): (r: StyleMap)
    ensures r.Keys == st.Keys + {FontSize}
    ensures r[FontSize] == Str(PixelSize(sizes, name))
    ensures forall k :: Changed(st, r, k) ==> k == FontSize
  {
    st[FontSize := Str(PixelSize(sizes, name))]
  }

  // ---------- inline declarations ----------

  /** `value.split(',')[0]`: the text before the first comma, untrimmed. */
  function FirstFamily(v: string): (r: string)
    ensures r <= v
    ensures forall k :: 0 <= k < |r| ==> r[k] != ','
    ensures |r| < |v| ==> v[|r|] == ','
  {
    if |v| == 0 || v[0] == ',' then "" else [v[0]] + FirstFamily(v[1..])
  }

  /** The key an inline property is stored under: `font-family` goes under `font`. */
  function StyleKey(property: string): string
  {
    if property == "font-family" then "font" else property
  }

  /** The value stored for an inline property: the first family for `font-family`, else verbatim. */
  function StyleValue(property: string, value: string): string
  {
    if property == "font-family" then FirstFamily(value) else value
  }

  /** One declaration applied to a style map. */
  function Declare(st: StyleMap, d: Declaration): StyleMap
  {
    st[StyleKey(d.0) := Str(StyleValue(d.0, d.1))]
  }

  /** The value the last declaration for key `k` stores, found from the end. */
  function LastFor(decls: seq<Declaration>, k: string): Option<string>
  {
    if |decls| == 0 then None
    else
      var d := decls[|decls| - 1];
      if StyleKey(d.0) == k then Some(StyleValue(d.0, d.1)) else LastFor(decls[..|decls| - 1], k)
  }

  /** Key `k` of `r` is what the declarations leave over `st`: the last one for `k`, or `st`'s entry. */
  predicate OverlaidAt(r: StyleMap, st: StyleMap, decls: seq<Declaration>, k: string)
  {
    match LastFor(decls, k)
    case Some(v) => k in r && r[k] == Str(v)
    case None => (k in r <==> k in st) && (k in st ==> r[k] == st[k])
  }

  ghost predicate Overlaid(r: StyleMap, st: StyleMap, decls: seq<Declaration>)
  {
    forall k :: OverlaidAt(r, st, decls, k)
  }

  /** Looking for the last declaration of a key across a first declaration and the rest. */
  lemma {:induction false} LastForCons(d: Declaration, rest: seq<Declaration>, k: string)
    ensures LastFor([d] + rest, k) ==
      if LastFor(rest, k).Some? then LastFor(rest, k)
      else if StyleKey(d.0) == k then Some(StyleValue(d.0, d.1))
      else None
    decreases |rest|
  {
    if |rest| > 0 {
      var all := [d] + rest;
      assert all[|all| - 1] == rest[|rest| - 1];
      assert all[..|all| - 1] == [d] + rest[..|rest| - 1];
      LastForCons(d, rest[..|rest| - 1], k);
    } else {
      assert [d] + rest == [d];
      assert [d][..0] == [];
    }
  }

  /** Applying one more declaration in front keeps the last-one-wins description. */
  lemma OverlayStep(r: StyleMap, st: StyleMap, d: Declaration, rest: seq<Declaration>)
    requires Overlaid(r, Declare(st, d), rest)
    ensures Overlaid(r, st, [d] + rest)
  {
    forall k ensures OverlaidAt(r, st, [d] + rest, k) {
      assert OverlaidAt(r, Declare(st, d), rest, k);
      LastForCons(d, rest, k);
    }
  }

  /**
    The inline declarations applied in order: for every key, the last
    declaration storing under it wins; keys no declaration stores under keep
    their inherited value.
  */
  function Overlay(st: StyleMap, decls: seq<Declaration>): (r: StyleMap)
    ensures Overlaid(r, st, decls)
    decreases |decls|
  {
    if |decls| == 0 then st
    else
      var r := Overlay(Declare(st, decls[0]), decls[1..]);
      OverlayStep(r, st, decls[0], decls[1..]);
      assert [decls[0]] + decls[1..] == decls;
      r
  }

  // ---------- a child's styles ----------

  /**
    The styles of a child element: inheritance, the formatting flag, the
    forced pixel size when `force` holds, then the inline declarations.
  */
  function ChildStyles(parent: StyleMap, sizes: SizeTable, name: string, force: bool, decls: seq<Declaration>): (r: StyleMap)
  {
    var st := Shorthand(Inherit(parent, sizes, name), name);
    Overlay(if force then ForceFontSize(st, sizes, name) else st, decls)
  }

  /** A key the parser writes for a child of its own, whatever the parent holds. */
  predicate Computed(name: string, force: bool, k: string)
  {
    k == TextTagSize || k == ParentTagSize || ShorthandFlag(name) == Some(k) || (force && k == FontSize)
  }

  /**
    Every parent style that no step of the parser writes and no inline
    declaration overrides reaches the child unchanged; the two size keys
    are always present.
  */
  lemma ChildInherits(parent: StyleMap, sizes: SizeTable, name: string, force: bool, decls: seq<Declaration>, k: string)
    requires k in parent && !Computed(name, force, k) && LastFor(decls, k).None?
    ensures var r := ChildStyles(parent, sizes, name, force, decls);
      k in r && r[k] == parent[k]
  {
    var st := Shorthand(Inherit(parent, sizes, name), name);
    var st' := if force then ForceFontSize(st, sizes, name) else st;
    assert !Changed(Inherit(parent, sizes, name), st, k);
    assert !Changed(st, st', k);
    assert OverlaidAt(Overlay(st', decls), st', decls, k);
  }

  /** Every child's styles hold both font-size bookkeeping keys. */
  lemma ChildHasSizeKeys(parent: StyleMap, sizes: SizeTable, name: string, force: bool, decls: seq<Declaration>)
    ensures var r := ChildStyles(parent, sizes, name, force, decls);
      TextTagSize in r && ParentTagSize in r
  {
    var st := Shorthand(Inherit(parent, sizes, name), name);
    var st' := if force then ForceFontSize(st, sizes, name) else st;
    var r := Overlay(st', decls);
    assert OverlaidAt(r, st', decls, TextTagSize);
    assert OverlaidAt(r, st', decls, ParentTagSize);
  }
}
