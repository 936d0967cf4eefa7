/** Room codes: the hex rendering of three random bytes (relay/server.js:14)
    and the bounded, collision-avoiding choice among successive draws
    (relay/server.js:11-18). The random source is abstracted as the
    sequence of draws it would produce. */
module Codes {
  import opened Wire
  import Ascii

  newtype byte = x: int | 0 <= x < 256

  /** One `crypto.randomBytes(3)` result. */
  type Draw = d: seq<byte> | |d| == 3 witness [0, 0, 0]

  /** The number of draws `generateCode` makes before giving up. */
  const MaxAttempts: nat := 10

  /** The length a drawn code is sliced to. */
  const CodeLength: nat := 6

  /** A lower-case hex digit, as `Buffer.toString("hex")` writes it. */
  function HexDigit(n: int): (c: char)
    requires 0 <= n < 16
    ensures '0' <= c <= '9' || 'a' <= c <= 'f'
  {
    if n < 10 then ('0' as int + n) as char else ('a' as int + n - 10) as char
  }

  /** `Buffer.toString("hex")`: two lower-case digits per byte, high nibble first. */
  function Hex(bytes: seq<byte>): (s: string)
    ensures |s| == 2 * |bytes|
    ensures forall k :: 0 <= k < |bytes| ==>
      s[2 * k] == HexDigit(bytes[k] as int / 16) && s[2 * k + 1] == HexDigit(bytes[k] as int % 16)
  {
    if bytes == [] then []
    else
      var rest := Hex(bytes[1..]);
      assert forall k :: 1 <= k < |bytes| ==> bytes[k] == bytes[1..][k - 1];
      [HexDigit(bytes[0] as int / 16), HexDigit(bytes[0] as int % 16)] + rest
  }

  /** `String.prototype.slice(0, n)`. */
  function Prefix(s: string, n: nat): (p: string)
    ensures |p| == if n < |s| then n else |s|
    ensures p == s[..|p|]
  {
    if n < |s| then s[..n] else s
  }

  predicate IsUpperHexDigit(c: char) {
    '0' <= c <= '9' || 'A' <= c <= 'F'
  }

  /** What a drawn code looks like: six upper-case hex digits. */
  predicate IsCode(c: Code) {
    |c| == CodeLength && forall i :: 0 <= i < |c| ==> IsUpperHexDigit(c[i])
  }

  /** The code made from one draw, as at relay/server.js:14. */
  function CodeOf(d: Draw): Code {
    Prefix(Ascii.Upper(Hex(d)), CodeLength)
  }

  /** The value of an upper-case hex digit. */
  function DigitValue(c: char): (n: int)
    requires IsUpperHexDigit(c)
    ensures 0 <= n < 16
  {
    if c <= '9' then c as int - '0' as int else c as int - 'A' as int + 10
  }

  /** Reads a code back as the three bytes it spells; None when it is not a
      well-formed code. The inverse of CodeOf. */
  function ParseCode(c: Code): (d: Option<Draw>)
    ensures d.Some? <==> IsCode(c)
  {
    if IsCode(c) then
      Some([(16 * DigitValue(c[0]) + DigitValue(c[1])) as byte,
            (16 * DigitValue(c[2]) + DigitValue(c[3])) as byte,
            (16 * DigitValue(c[4]) + DigitValue(c[5])) as byte])
    else None
  }

  /** Byte k of a draw becomes positions 2k and 2k+1 of its code. */
  lemma CodeOfAt(d: Draw, k: nat)
    requires k < 3
    ensures |CodeOf(d)| == CodeLength
    ensures CodeOf(d)[2 * k] == Ascii.UpperChar(HexDigit(d[k] as int / 16))
    ensures CodeOf(d)[2 * k + 1] == Ascii.UpperChar(HexDigit(d[k] as int % 16))
  {
  }

  /** Upper-casing a hex digit and reading it back gives the nibble. */
  lemma DigitRoundTrip(n: int)
    requires 0 <= n < 16
    ensures IsUpperHexDigit(Ascii.UpperChar(HexDigit(n)))
    ensures DigitValue(Ascii.UpperChar(HexDigit(n))) == n
  {
  }

  /** Reading an upper-case hex digit and writing it back gives the digit. */
  lemma DigitInverse(c: char)
    requires IsUpperHexDigit(c)
    ensures Ascii.UpperChar(HexDigit(DigitValue(c))) == c
  {
  }

  /** A byte built from two nibbles splits back into them. */
  lemma Nibbles(hi: int, lo: int)
    requires 0 <= hi < 16 && 0 <= lo < 16
    ensures (16 * hi + lo) / 16 == hi && (16 * hi + lo) % 16 == lo
  {
  }

  /** Every drawn code is six upper-case hex digits. */
  lemma {:induction false} CodeOfIsCode(d: Draw)
    ensures IsCode(CodeOf(d))
  {
    var c := CodeOf(d);
    forall k | 0 <= k < 3
      ensures IsUpperHexDigit(c[2 * k]) && IsUpperHexDigit(c[2 * k + 1])
    {
      CodeOfAt(d, k);
      DigitRoundTrip(d[k] as int / 16);
      DigitRoundTrip(d[k] as int % 16);
    }
    assert IsUpperHexDigit(c[0]) && IsUpperHexDigit(c[1]);
    assert IsUpperHexDigit(c[2 * 1]) && IsUpperHexDigit(c[2 * 1 + 1]);
    assert IsUpperHexDigit(c[2 * 2]) && IsUpperHexDigit(c[2 * 2 + 1]);
  }

  /** Byte k of the parse of a drawn code is byte k of the draw. */
  lemma {:induction false} ParseByte(d: Draw, k: nat)
    requires k < 3
    ensures IsCode(CodeOf(d))
    ensures 16 * DigitValue(CodeOf(d)[2 * k]) + DigitValue(CodeOf(d)[2 * k + 1]) == d[k] as int
  {
    CodeOfIsCode(d);
    CodeOfAt(d, k);
    DigitRoundTrip(d[k] as int / 16);
    DigitRoundTrip(d[k] as int % 16);
  }

  /** Parsing a drawn code gives back the draw: distinct draws give distinct codes. */
  lemma {:induction false} ParseCodeOf(d: Draw)
    ensures ParseCode(CodeOf(d)) == Some(d)
  {
    ParseByte(d, 0);
    ParseByte(d, 1);
    ParseByte(d, 2);
    var p := ParseCode(CodeOf(d)).value;
    assert p[0] == d[0] && p[1] == d[1] && p[2] == d[2];
    assert p == d;
  }

  /** Drawn code k spells byte k of the parse of a well-formed code. */
  lemma {:induction false} CodeByte(c: Code, k: nat)
    requires IsCode(c) && k < 3
    ensures CodeOf(ParseCode(c).value)[2 * k] == c[2 * k]
    ensures CodeOf(ParseCode(c).value)[2 * k + 1] == c[2 * k + 1]
  {
    var d := ParseCode(c).value;
    var hi, lo := DigitValue(c[2 * k]), DigitValue(c[2 * k + 1]);
    assert d[k] as int == 16 * hi + lo;
    Nibbles(hi, lo);
    CodeOfAt(d, k);
    DigitInverse(c[2 * k]);
    DigitInverse(c[2 * k + 1]);
  }

  /** Every well-formed code is the code of the draw it parses to. */
  lemma {:induction false} CodeOfParse(c: Code)
    requires IsCode(c)
    ensures CodeOf(ParseCode(c).value) == c
  {
    var d := ParseCode(c).value;
    CodeOfAt(d, 0);
    CodeByte(c, 0);
    CodeByte(c, 1);
    CodeByte(c, 2);
    assert CodeOf(d)[2] == c[2] && CodeOf(d)[3] == c[3];
    assert CodeOf(d)[4] == c[4] && CodeOf(d)[5] == c[5];
    assert CodeOf(d) == c;
  }

  /** Draw i is the first one whose code is not taken. */
  predicate FirstFreeAt(keys: set<Code>, draws: seq<Draw>, i: int) {
    0 <= i < |draws| && CodeOf(draws[i]) !in keys &&
    forall j :: 0 <= j < i ==> CodeOf(draws[j]) in keys
  }

  /** The code of the first draw not already a key, or None when every draw
      collides. `generateCode` is this on its first MaxAttempts draws. */
  function FirstFree(keys: set<Code>, draws: seq<Draw>): (r: Option<Code>)
    ensures r.Some? ==> r.value !in keys
    ensures r.Some? ==> exists i :: FirstFreeAt(keys, draws, i) && r.value == CodeOf(draws[i])
    ensures r.None? <==> forall j :: 0 <= j < |draws| ==> CodeOf(draws[j]) in keys
    decreases |draws|
  {
    if draws == [] then None
    else if CodeOf(draws[0]) !in keys then
      assert FirstFreeAt(keys, draws, 0);
      Some(CodeOf(draws[0]))
    else
      var r := FirstFree(keys, draws[1..]);
      assert forall j :: 1 <= j < |draws| ==> draws[j] == draws[1..][j - 1];
      if r.Some? then
        var i :| FirstFreeAt(keys, draws[1..], i) && r.value == CodeOf(draws[1..][i]);
        assert FirstFreeAt(keys, draws, i + 1);
        r
      else r
  }

  /** Two first-free indices over the same draws coincide. */
  lemma FirstFreeAtUnique(keys: set<Code>, draws: seq<Draw>, i: int, j: int)
    requires FirstFreeAt(keys, draws, i) && FirstFreeAt(keys, draws, j)
    ensures i == j
  {
  }
}
