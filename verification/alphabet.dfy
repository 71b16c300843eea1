/**
 * The 62-symbol alphabets and the mapping between digits and symbols.
 * The TypeScript reference sorts like ASCII (0-9A-Za-z); the Rust and Go
 * ports use the "base64" ordering (A-Za-z0-9). Both are the same three runs
 * of consecutive ASCII characters in a different order, so each alphabet is
 * defined by the code point of every digit.
 */
module Alphabet {
  import opened Radix

  /** Code point of digit `i` in the lexicographic ordering: runs `0-9`, `A-Z`, `a-z`. */
  function LexCode(i: int): int {
    if i < 10 then '0' as int + i else if i < 36 then 'A' as int + (i - 10) else 'a' as int + (i - 36)
  }

  /** Code point of digit `i` in the "base64" ordering: runs `A-Z`, `a-z`, `0-9`. */
  function B64Code(i: int): int {
    if i < 26 then 'A' as int + i else if i < 52 then 'a' as int + (i - 26) else '0' as int + (i - 52)
  }

  function LexSymbol(i: int): char
    requires 0 <= i < 62
  {
    LexCode(i) as char
  }

  function B64Symbol(i: int): char
    requires 0 <= i < 62
  {
    B64Code(i) as char
  }

  function LexAlphabet(): (a: string)
    ensures |a| == 62
  {
    seq(62, LexSymbol)
  }

  function B64Alphabet(): (a: string)
    ensures |a| == 62
  {
    seq(62, B64Symbol)
  }

  /** Lexicographic ordering, `0-9A-Za-z`: digit order agrees with ASCII order. */
  const LEX: string := LexAlphabet()

  /** "Base64" ordering, `A-Za-z0-9`, also called truncated base64. */
  const B64: string := B64Alphabet()

  /** The character class `[0-9A-Za-z]`; Rust's `is_ascii_alphanumeric` is the same set. */
  predicate IsAlnum(ch: char) {
    '0' <= ch <= '9' || 'A' <= ch <= 'Z' || 'a' <= ch <= 'z'
  }

  /** The whole-string match `^[0-9A-Za-z]*$`. */
  predicate AllAlnum(s: string) {
    forall i :: 0 <= i < |s| ==> IsAlnum(s[i])
  }

  /** Every character of `s` is a symbol of `a`. */
  predicate Over(s: string, a: string) {
    forall i :: 0 <= i < |s| ==> s[i] in a
  }

  predicate Distinct(a: string) {
    forall i, j :: 0 <= i < j < |a| ==> a[i] != a[j]
  }

  /** 62 distinct symbols, which are exactly the ASCII letters and digits. */
  predicate IsAlphabet(a: string) {
    && |a| == 62
    && Distinct(a)
    && forall ch :: ch in a <==> IsAlnum(ch)
  }

  lemma LexCodes()
    ensures |LEX| == 62
    ensures forall i :: 0 <= i < 62 ==> LEX[i] as int == LexCode(i)
  {
  }

  lemma B64Codes()
    ensures |B64| == 62
    ensures forall i :: 0 <= i < 62 ==> B64[i] as int == B64Code(i)
  {
  }

  /** Symbols of the lexicographic alphabet strictly increase, so digit order is ASCII order. */
  lemma LexAscending()
    ensures |LEX| == 62
    ensures forall i, j :: 0 <= i < j < 62 ==> LEX[i] < LEX[j]
  {
    LexCodes();
  }

  lemma LexIsAlphabet()
    ensures IsAlphabet(LEX)
    ensures LEX[0] == '0'
  {
    LexCodes();
    forall ch | IsAlnum(ch)
      ensures ch in LEX
    {
      var c := ch as int;
      var i := if c <= '9' as int then c - '0' as int else if c <= 'Z' as int then c - 'A' as int + 10 else c - 'a' as int + 36;
      assert LEX[i] as int == c;
    }
    forall ch | ch in LEX
      ensures IsAlnum(ch)
    {
      var i :| 0 <= i < 62 && LEX[i] == ch;
      assert LEX[i] as int == LexCode(i);
    }
  }

  lemma B64IsAlphabet()
    ensures IsAlphabet(B64)
    ensures B64[0] == 'A'
  {
    B64Codes();
    forall ch | IsAlnum(ch)
      ensures ch in B64
    {
      var c := ch as int;
      var i := if c <= '9' as int then c - '0' as int + 52 else if c <= 'Z' as int then c - 'A' as int else c - 'a' as int + 26;
      assert B64[i] as int == c;
    }
    forall ch | ch in B64
      ensures IsAlnum(ch)
    {
      var i :| 0 <= i < 62 && B64[i] == ch;
      assert B64[i] as int == B64Code(i);
    }
  }

  /** The first position of `ch` in `a`, or -1 (`indexOf`, `find`, `IndexRune`). */
  function IndexOf(a: string, ch: char): (r: int)
    ensures -1 <= r < |a|
    ensures r >= 0 ==> a[r] == ch && forall j :: 0 <= j < r ==> a[j] != ch
    ensures r < 0 <==> ch !in a
    decreases |a|
  {
    if |a| == 0 then -1
    else if a[0] == ch then 0
    else
      var k := IndexOf(a[1..], ch);
      assert a == [a[0]] + a[1..];
      if k < 0 then -1 else k + 1
  }

  /** In an alphabet without repeats, a symbol's index is its digit. */
  lemma IndexOfSymbol(a: string, d: int)
    requires Distinct(a) && 0 <= d < |a|
    ensures IndexOf(a, a[d]) == d
  {
    var r := IndexOf(a, a[d]);
    assert a[r] == a[d];
  }

  /** The symbols of a digit sequence. */
  function Spell(a: string, ds: seq<int>): (s: string)
    requires IsDigits(ds, |a|)
    ensures |s| == |ds| && Over(s, a)
    ensures forall i :: 0 <= i < |ds| ==> s[i] == a[ds[i]]
  {
    seq(|ds|, i requires 0 <= i < |ds| => a[ds[i]])
  }

  /** The digits of a string over the alphabet. */
  function Read(a: string, s: string): (ds: seq<int>)
    requires Over(s, a)
    ensures |ds| == |s| && IsDigits(ds, |a|)
    ensures forall i :: 0 <= i < |s| ==> ds[i] == IndexOf(a, s[i])
  {
    seq(|s|, i requires 0 <= i < |s| => IndexOf(a, s[i]))
  }

  /** Reading back what was spelled gives the digits. */
  lemma ReadSpell(a: string, ds: seq<int>)
    requires Distinct(a) && IsDigits(ds, |a|)
    ensures Read(a, Spell(a, ds)) == ds
  {
    var s := Spell(a, ds);
    forall i | 0 <= i < |ds|
      ensures Read(a, s)[i] == ds[i]
    {
      IndexOfSymbol(a, ds[i]);
    }
  }

  /** Spelling what was read gives the string. */
  lemma SpellRead(a: string, s: string)
    requires Over(s, a)
    ensures Spell(a, Read(a, s)) == s
  {
  }

  lemma SpellAppend(a: string, x: seq<int>, y: seq<int>)
    requires IsDigits(x, |a|) && IsDigits(y, |a|)
    ensures IsDigits(x + y, |a|)
    ensures Spell(a, x + y) == Spell(a, x) + Spell(a, y)
  {
  }

  lemma ReadAppend(a: string, s: string, t: string)
    requires Over(s, a) && Over(t, a)
    ensures Over(s + t, a)
    ensures Read(a, s + t) == Read(a, s) + Read(a, t)
  {
  }

  /** Padding the digits with zero pads the text with the alphabet's zero symbol. */
  lemma SpellPadLeft(a: string, ds: seq<int>, w: nat)
    requires |a| > 0 && IsDigits(ds, |a|)
    ensures IsDigits(PadLeft(ds, w, 0), |a|)
    ensures Spell(a, PadLeft(ds, w, 0)) == PadLeft(Spell(a, ds), w, a[0])
  {
    if |ds| < w {
      assert PadLeft(ds, w, 0) == Repeat(0, w - |ds|) + ds;
      assert PadLeft(Spell(a, ds), w, a[0]) == Repeat(a[0], w - |ds|) + Spell(a, ds);
    }
  }

  /** For an alphabet of letters and digits, passing the alphanumeric check means every character is a symbol. */
  lemma AlnumOver(a: string, s: string)
    requires IsAlphabet(a)
    ensures AllAlnum(s) <==> Over(s, a)
  {
  }
}
