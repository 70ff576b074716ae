/**
  Identifier generation. The generator fills the template
  `xxxxxxxx-xxxx-4xxx-yxxx-xxxxxxxxxxxx` left to right: every `x` becomes the
  lower-case hex digit of a fresh random nibble `r`, every `y` the digit of
  `(r & 0x3) | 0x8`, and every other character is kept. The random source is
  an input here: the sequence of nibbles drawn, one per placeholder, in
  order. The fixed `4` and the `8`-`b` digit are the version and variant
  markers of a version-4 UUID (section 4.4 of RFC 4122).
 */
module Uuid {

  /** One draw: `Math.random() * 16` truncated to an integer. */
  type Nibble = x: int | 0 <= x < 16

  const HEX_DIGITS: string := "0123456789abcdef"

  /** `v.toString(16)` for a value below 16: a decimal digit below ten,
      otherwise a lower-case letter from `a`. */
  function HexDigit(v: Nibble): (ch: char)
    ensures v < 10 ==> ch as int == '0' as int + v
    ensures 10 <= v ==> ch as int == 'a' as int + (v - 10)
  {
    HEX_DIGITS[v]
  }

  /** Two distinct values below 16 have distinct hex digits. */
  lemma HexDigitInjective(a: Nibble, b: Nibble)
    requires HexDigit(a) == HexDigit(b)
    ensures a == b
  {
  }

  /** The variant nibble `(r & 0x3) | 0x8`: the low two bits of the draw
      with the high bit set, so always one of 8, 9, 10, 11. */
  function Variant(r: Nibble): (v: Nibble)
    ensures v == 8 + r % 4
  {
    (((r as bv8) & 0x3) | 0x8) as int
  }

  // ---------------------------------------------------------------------
  // The template
  // ---------------------------------------------------------------------

  /** A run of `n` plain placeholders. */
  function Xs(n: nat): (t: string)
    ensures |t| == n && forall i :: 0 <= i < n ==> t[i] == 'x'
  {
    seq(n, _ => 'x')
  }

  /** The last three groups of the template, from the hyphen before the
      variant placeholder on. */
  const TAIL: string := "-" + ("y" + (Xs(3) + ("-" + Xs(12))))

  /** The template `xxxxxxxx-xxxx-4xxx-yxxx-xxxxxxxxxxxx`, assembled from its
      groups; `TemplateText` shows that it spells exactly that text. */
  const TEMPLATE: string := Xs(8) + ("-" + (Xs(4) + ("-" + ("4" + (Xs(3) + TAIL)))))

  lemma TemplateText()
    ensures TEMPLATE == "xxxxxxxx-xxxx-4xxx-yxxx-xxxxxxxxxxxx"
  {
  }

  /** The number of draws one identifier consumes. */
  const DRAWS: nat := 31

  /** Positions of the fixed characters of an identifier. */
  const HYPHENS: set<int> := {8, 13, 18, 23}
  const VERSION_POS: int := 14
  const VARIANT_POS: int := 19

  /** The draw that fills position `i` of the identifier, for a position
      that is not a hyphen or the version digit. */
  function DrawIndex(i: int): int
  {
    if i < 8 then i
    else if i < 13 then i - 1
    else if i < 18 then i - 3
    else if i < 23 then i - 4
    else i - 5
  }

  /** The position of the identifier that draw `j` fills. */
  function Position(j: int): int
  {
    if j < 8 then j
    else if j < 12 then j + 1
    else if j < 15 then j + 3
    else if j < 19 then j + 4
    else j + 5
  }

  // ---------------------------------------------------------------------
  // The filler and the generator
  // ---------------------------------------------------------------------

  predicate IsPlaceholder(ch: char)
  {
    ch == 'x' || ch == 'y'
  }

  /** The number of placeholders in `t`, so the number of draws filling it
      consumes. */
  function Placeholders(t: string): nat
  {
    if t == [] then 0
    else (if IsPlaceholder(t[0]) then 1 else 0) + Placeholders(t[1..])
  }

  /** The template filler: each placeholder of `t`, left to right, takes the
      next draw of `d`. */
  function Fill(t: string, d: seq<Nibble>): (u: string)
    requires |d| == Placeholders(t)
    ensures |u| == |t|
  {
    if t == [] then []
    else if t[0] == 'x' then [HexDigit(d[0])] + Fill(t[1..], d[1..])
    else if t[0] == 'y' then [HexDigit(Variant(d[0]))] + Fill(t[1..], d[1..])
    else [t[0]] + Fill(t[1..], d)
  }

  /** Filling keeps every character that is not a placeholder, turns every
      `x` into a hex digit and every `y` into one of the variant digits. */
  lemma {:induction false} FillShape(t: string, d: seq<Nibble>)
    requires |d| == Placeholders(t)
    ensures forall i :: 0 <= i < |t| && !IsPlaceholder(t[i]) ==> Fill(t, d)[i] == t[i]
    ensures forall i :: 0 <= i < |t| && t[i] == 'x' ==> Fill(t, d)[i] in HEX_DIGITS
    ensures forall i :: 0 <= i < |t| && t[i] == 'y' ==> Fill(t, d)[i] in "89ab"
    decreases |t|
  {
    if t != [] {
      var d' := if IsPlaceholder(t[0]) then d[1..] else d;
      FillShape(t[1..], d');
      var u := Fill(t, d);
      assert u[1..] == Fill(t[1..], d');
      if t[0] == 'y' {
        assert u[0] == HexDigit(Variant(d[0]));
      }
      forall i | 1 <= i < |t|
        ensures u[i] == u[1..][i - 1] && t[i] == t[1..][i - 1]
      {
      }
    }
  }

  /** `generateUniqueId()`, with the random draws as an input: the template
      filled with the draws, one per placeholder, left to right. */
  function GenerateUniqueId(draws: seq<Nibble>): (id: string)
    requires |draws| == DRAWS
    ensures |id| == 36
    ensures forall i :: 0 <= i < 36 ==> (id[i] == '-' <==> i in HYPHENS)
    ensures id[VERSION_POS] == '4'
    ensures id[VARIANT_POS] == '8' || id[VARIANT_POS] == '9' || id[VARIANT_POS] == 'a' || id[VARIANT_POS] == 'b'
    ensures forall i :: 0 <= i < 36 && i !in HYPHENS ==> id[i] in HEX_DIGITS
    ensures forall i :: 0 <= i < 36 && i !in HYPHENS && i != VERSION_POS && i != VARIANT_POS ==>
              id[i] == HexDigit(draws[DrawIndex(i)])
    ensures id[VARIANT_POS] == HexDigit(8 + draws[DrawIndex(VARIANT_POS)] % 4)
  {
    FillTemplate(draws);
    LayoutChars(draws);
    LayoutFormat(draws);
    Fill(TEMPLATE, draws)
  }

  /** Two draw sequences give the same identifier exactly when they agree on
      every draw except the variant's, and on the low two bits of that one. */
  lemma SameIdIffSameDraws(d1: seq<Nibble>, d2: seq<Nibble>)
    requires |d1| == DRAWS && |d2| == DRAWS
    ensures GenerateUniqueId(d1) == GenerateUniqueId(d2) <==>
              (forall j :: 0 <= j < DRAWS && j != 15 ==> d1[j] == d2[j]) && d1[15] % 4 == d2[15] % 4
  {
    var u1, u2 := GenerateUniqueId(d1), GenerateUniqueId(d2);
    if u1 == u2 {
      forall j | 0 <= j < DRAWS && j != 15
        ensures d1[j] == d2[j]
      {
        var i := Position(j);
        assert DrawIndex(i) == j;
        assert u1[i] == u2[i];
        HexDigitInjective(d1[j], d2[j]);
      }
      HexDigitInjective(8 + d1[15] % 4, 8 + d2[15] % 4);
    }
    if (forall j :: 0 <= j < DRAWS && j != 15 ==> d1[j] == d2[j]) && d1[15] % 4 == d2[15] % 4 {
      forall i | 0 <= i < 36
        ensures u1[i] == u2[i]
      {
      }
      assert u1 == u2;
    }
  }

  // ---------------------------------------------------------------------
  // Filling the template, group by group
  // ---------------------------------------------------------------------

  lemma {:induction false} PlaceholdersAppend(a: string, b: string)
    ensures Placeholders(a + b) == Placeholders(a) + Placeholders(b)
  {
    if a == [] {
      assert a + b == b;
    } else {
      assert (a + b)[1..] == a[1..] + b;
      PlaceholdersAppend(a[1..], b);
    }
  }

  /** Filling a concatenation fills each part with its own share of the
      draws, in order. */
  lemma {:induction false} FillAppend(a: string, b: string, d: seq<Nibble>)
    requires |d| == Placeholders(a) + Placeholders(b)
    ensures Placeholders(a + b) == Placeholders(a) + Placeholders(b)
    ensures Fill(a + b, d) == Fill(a, d[..Placeholders(a)]) + Fill(b, d[Placeholders(a)..])
  {
    PlaceholdersAppend(a, b);
    if a == [] {
      assert a + b == b;
      assert d[Placeholders(a)..] == d;
    } else {
      assert (a + b)[1..] == a[1..] + b;
      assert (a + b)[0] == a[0];
      if IsPlaceholder(a[0]) {
        FillAppend(a[1..], b, d[1..]);
        assert d[1..][..Placeholders(a[1..])] == d[..Placeholders(a)][1..];
        assert d[1..][Placeholders(a[1..])..] == d[Placeholders(a)..];
      } else {
        FillAppend(a[1..], b, d);
      }
    }
  }

  /** The hex digits of the draws, one per draw. */
  function HexRun(d: seq<Nibble>): (u: string)
    ensures |u| == |d| && forall i :: 0 <= i < |d| ==> u[i] == HexDigit(d[i])
  {
    seq(|d|, i requires 0 <= i < |d| => HexDigit(d[i]))
  }

  /** A run of plain placeholders becomes the hex digits of its draws. */
  lemma {:induction false} FillRun(n: nat, d: seq<Nibble>)
    requires |d| == n
    ensures Placeholders(Xs(n)) == n
    ensures Fill(Xs(n), d) == HexRun(d)
  {
    if n > 0 {
      assert Xs(n)[1..] == Xs(n - 1);
      FillRun(n - 1, d[1..]);
    }
  }

  /** A run of plain placeholders followed by the rest of a template. */
  lemma FillRunThen(n: nat, rest: string, d: seq<Nibble>)
    requires |d| == n + Placeholders(rest)
    ensures Placeholders(Xs(n) + rest) == |d|
    ensures Fill(Xs(n) + rest, d) == HexRun(d[..n]) + Fill(rest, d[n..])
  {
    FillRun(n, d[..n]);
    FillAppend(Xs(n), rest, d);
  }

  /** A character kept as it is, followed by the rest of a template. */
  lemma FillFixedThen(ch: char, rest: string, d: seq<Nibble>)
    requires !IsPlaceholder(ch)
    requires |d| == Placeholders(rest)
    ensures Placeholders([ch] + rest) == |d|
    ensures Fill([ch] + rest, d) == [ch] + Fill(rest, d)
  {
    assert ([ch] + rest)[1..] == rest;
  }

  /** The variant placeholder, followed by the rest of a template. */
  lemma FillVariantThen(rest: string, d: seq<Nibble>)
    requires |d| == 1 + Placeholders(rest)
    ensures Placeholders("y" + rest) == |d|
    ensures Fill("y" + rest, d) == [HexDigit(Variant(d[0]))] + Fill(rest, d[1..])
  {
    assert ("y" + rest)[1..] == rest;
  }

  /** What filling the template yields, group by group. */
  function Layout(d: seq<Nibble>): string
    requires |d| == DRAWS
  {
    HexRun(d[0..8]) + ("-" + (HexRun(d[8..12]) + ("-" + ("4" + (HexRun(d[12..15]) + TailLayout(d[15..]))))))
  }

  /** What filling `TAIL` yields. */
  function TailLayout(e: seq<Nibble>): string
    requires |e| == 16
  {
    "-" + ([HexDigit(Variant(e[0]))] + (HexRun(e[1..4]) + ("-" + HexRun(e[4..]))))
  }

  lemma FillTail(e: seq<Nibble>)
    requires |e| == 16
    ensures Placeholders(TAIL) == 16
    ensures Fill(TAIL, e) == TailLayout(e)
  {
    var s9 := Xs(12);
    var s8 := "-" + s9;
    var s7 := Xs(3) + s8;
    var s6 := "y" + s7;
    FillRun(12, e[4..]);
    assert s8 == ['-'] + s9;
    FillFixedThen('-', s9, e[4..]);
    FillRunThen(3, s8, e[1..]);
    assert e[1..][..3] == e[1..4] && e[1..][3..] == e[4..];
    FillVariantThen(s7, e);
    assert TAIL == ['-'] + s6;
    FillFixedThen('-', s6, e);
  }

  lemma FillTemplate(d: seq<Nibble>)
    requires |d| == DRAWS
    ensures Placeholders(TEMPLATE) == DRAWS
    ensures Fill(TEMPLATE, d) == Layout(d)
  {
    FillTail(d[15..]);
    var s4 := Xs(3) + TAIL;
    var s3 := "4" + s4;
    var s2 := "-" + s3;
    var s1 := Xs(4) + s2;
    var s0 := "-" + s1;
    FillRunThen(3, TAIL, d[12..]);
    assert d[12..][..3] == d[12..15] && d[12..][3..] == d[15..];
    assert s3 == ['4'] + s4;
    FillFixedThen('4', s4, d[12..]);
    assert s2 == ['-'] + s3;
    FillFixedThen('-', s3, d[12..]);
    FillRunThen(4, s2, d[8..]);
    assert d[8..][..4] == d[8..12] && d[8..][4..] == d[12..];
    assert s0 == ['-'] + s1;
    FillFixedThen('-', s1, d[8..]);
    FillRunThen(8, s0, d);
    assert d[..8] == d[0..8];
  }

  /** The character the filled template has at position `i`. */
  function LayoutChar(d: seq<Nibble>, i: int): char
    requires |d| == DRAWS
    requires 0 <= i < 36
  {
    if i in HYPHENS then '-'
    else if i == VERSION_POS then '4'
    else if i == VARIANT_POS then HexDigit(Variant(d[15]))
    else HexDigit(d[DrawIndex(i)])
  }

  lemma LayoutChars(d: seq<Nibble>)
    requires |d| == DRAWS
    ensures |Layout(d)| == 36
    ensures forall i :: 0 <= i < 36 ==> Layout(d)[i] == LayoutChar(d, i)
  {
  }

  /** The format of a filled template, position by position. */
  lemma LayoutFormat(d: seq<Nibble>)
    requires |d| == DRAWS
    ensures |Layout(d)| == 36
    ensures forall i :: 0 <= i < 36 ==> (Layout(d)[i] == '-' <==> i in HYPHENS)
    ensures forall i :: 0 <= i < 36 && i !in HYPHENS ==> Layout(d)[i] in HEX_DIGITS
    ensures Layout(d)[VARIANT_POS] == HexDigit(8 + d[15] % 4)
  {
    LayoutChars(d);
    forall i | 0 <= i < 36 && i !in HYPHENS
      ensures Layout(d)[i] in HEX_DIGITS && Layout(d)[i] != '-'
    {
      if i == VERSION_POS {
        assert HEX_DIGITS[4] == '4';
      } else if i == VARIANT_POS {
        assert HEX_DIGITS[Variant(d[15])] == HexDigit(Variant(d[15]));
      } else {
        assert HEX_DIGITS[d[DrawIndex(i)]] == HexDigit(d[DrawIndex(i)]);
      }
    }
  }
}
