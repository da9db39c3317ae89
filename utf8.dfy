/** UTF-8 as Go's unicode/utf8 package reads it (RFC 3629, section 3):
    DecodeRune reports the first encoded rune of a byte string and its width,
    and answers (RuneError, 1) for a byte that does not start a well-formed
    sequence. EncodeRune is the partner used to state what DecodeRune accepts. */
module Utf8 {

  type Byte = b: int | 0 <= b < 256

  const RuneError: int := 0xFFFD

  /** A Unicode scalar value: what a Go rune holds after decoding. */
  predicate IsScalar(r: int) {
    (0 <= r < 0xD800) || (0xE000 <= r <= 0x10FFFF)
  }

  predicate IsContinuation(b: Byte) {
    0x80 <= b <= 0xBF
  }

  /** Number of bytes a sequence starting with lead byte b occupies, 0 when b
      cannot start a sequence (0x80..0xC1 and 0xF5..0xFF). */
  function LeadWidth(b: Byte): (n: nat)
    ensures n <= 4
  {
    if b < 0x80 then 1
    else if b < 0xC2 then 0
    else if b < 0xE0 then 2
    else if b < 0xF0 then 3
    else if b < 0xF5 then 4
    else 0
  }

  /** The narrowed range RFC 3629 allows for the byte after lead byte b; it
      excludes overlong forms, surrogates and values above U+10FFFF. */
  function SecondLow(b: Byte): Byte {
    if b == 0xE0 then 0xA0 else if b == 0xF0 then 0x90 else 0x80
  }

  function SecondHigh(b: Byte): Byte {
    if b == 0xED then 0x9F else if b == 0xF4 then 0x8F else 0xBF
  }

  /** The code point a complete sequence of width n encodes, before checking. */
  function Assemble(p: seq<Byte>, n: nat): int
    requires 2 <= n <= 4 && n <= |p|
  {
    var b0, b1 := p[0] as int, p[1] as int;
    if n == 2 then (b0 - 0xC0) * 64 + (b1 - 0x80)
    else if n == 3 then (b0 - 0xE0) * 4096 + (b1 - 0x80) * 64 + (p[2] as int - 0x80)
    else (b0 - 0xF0) * 262144 + (b1 - 0x80) * 4096 + (p[2] as int - 0x80) * 64 + (p[3] as int - 0x80)
  }

  /** True when p begins with a well-formed sequence of width LeadWidth(p[0]). */
  predicate StartsWellFormed(p: seq<Byte>)
    requires p != []
  {
    var n := LeadWidth(p[0]);
    && n != 0
    && n <= |p|
    && (n >= 2 ==> SecondLow(p[0]) <= p[1] <= SecondHigh(p[0]))
    && (n >= 3 ==> IsContinuation(p[2]))
    && (n >= 4 ==> IsContinuation(p[3]))
  }

  /** UTF-8 encoding of one scalar value. */
  function EncodeRune(r: int): (e: seq<Byte>)
    requires IsScalar(r)
    ensures 1 <= |e| <= 4
  {
    if r < 0x80 then [r]
    else if r < 0x800 then [0xC0 + r / 64, 0x80 + r % 64]
    else if r < 0x10000 then [0xE0 + r / 4096, 0x80 + (r / 64) % 64, 0x80 + r % 64]
    else [0xF0 + r / 262144, 0x80 + (r / 4096) % 64, 0x80 + (r / 64) % 64, 0x80 + r % 64]
  }

  /** utf8.DecodeRune: an empty input gives (RuneError, 0); an ill-formed or
      truncated sequence gives (RuneError, 1); otherwise the rune and the
      number of bytes it used, which are exactly its encoding. */
  function DecodeRune(p: seq<Byte>): (res: (int, nat))
    ensures p == [] ==> res == (RuneError, 0)
    ensures p != [] ==> 1 <= res.1 <= |p| && IsScalar(res.0)
    ensures p != [] && !StartsWellFormed(p) ==> res == (RuneError, 1)
  {
    if p == [] then (RuneError, 0)
    else if !StartsWellFormed(p) then (RuneError, 1)
    else
      var n := LeadWidth(p[0]);
      if n == 1 then (p[0], 1)
      else
        var r := Assemble(p, n);
        EncodeOfAssemble(p, n);
        (r, n)
  }

  /** A well-formed start decodes to the rune whose encoding is exactly the
      bytes DecodeRune reports as used. */
  lemma DecodeIsEncoding(p: seq<Byte>)
    requires p != [] && StartsWellFormed(p)
    ensures EncodeRune(DecodeRune(p).0) == p[..DecodeRune(p).1]
  {
    var n := LeadWidth(p[0]);
    if n >= 2 {
      EncodeOfAssemble(p, n);
    }
  }

  lemma DivMod64(q: int, m: int)
    requires 0 <= m < 64
    ensures (q * 64 + m) / 64 == q && (q * 64 + m) % 64 == m
  {
  }

  lemma EncodeOfAssemble(p: seq<Byte>, n: nat)
    requires p != [] && StartsWellFormed(p) && n == LeadWidth(p[0]) && n >= 2
    ensures IsScalar(Assemble(p, n)) && EncodeRune(Assemble(p, n)) == p[..n]
  {
    if n == 2 {
      EncodeOfAssemble2(p);
    } else if n == 3 {
      EncodeOfAssemble3(p);
    } else {
      EncodeOfAssemble4(p);
    }
  }

  lemma EncodeOfAssemble2(p: seq<Byte>)
    requires p != [] && StartsWellFormed(p) && LeadWidth(p[0]) == 2
    ensures IsScalar(Assemble(p, 2)) && EncodeRune(Assemble(p, 2)) == p[..2]
  {
    DivMod64(p[0] as int - 0xC0, p[1] as int - 0x80);
  }

  lemma EncodeOfAssemble3(p: seq<Byte>)
    requires p != [] && StartsWellFormed(p) && LeadWidth(p[0]) == 3
    ensures IsScalar(Assemble(p, 3)) && EncodeRune(Assemble(p, 3)) == p[..3]
  {
    var r := Assemble(p, 3);
    var b0, b1 := p[0] as int, p[1] as int;
    var hi := (b0 - 0xE0) * 64 + (b1 - 0x80);
    DivMod64(hi, p[2] as int - 0x80);
    DivMod64(b0 - 0xE0, b1 - 0x80);
    assert r / 64 == hi;
    assert r / 4096 == (r / 64) / 64;
  }

  lemma EncodeOfAssemble4(p: seq<Byte>)
    requires p != [] && StartsWellFormed(p) && LeadWidth(p[0]) == 4
    ensures IsScalar(Assemble(p, 4)) && EncodeRune(Assemble(p, 4)) == p[..4]
  {
    var r := Assemble(p, 4);
    var b0, b1 := p[0] as int, p[1] as int;
    var mid := (b0 - 0xF0) * 64 + (b1 - 0x80);
    var hi := mid * 64 + (p[2] as int - 0x80);
    DivMod64(hi, p[3] as int - 0x80);
    DivMod64(mid, p[2] as int - 0x80);
    DivMod64(b0 - 0xF0, b1 - 0x80);
    assert r / 64 == hi;
    assert r / 4096 == (r / 64) / 64;
    assert r / 262144 == (r / 4096) / 64;
  }

  /** Re-assembling an encoding gives back the rune. */
  lemma AssembleEncode(r: int)
    requires IsScalar(r) && |EncodeRune(r)| >= 2
    ensures var e := EncodeRune(r);
      StartsWellFormed(e) && LeadWidth(e[0]) == |e| && Assemble(e, |e|) == r
  {
    var e := EncodeRune(r);
    if r < 0x800 {
      DivMod64(r / 64, r % 64);
    } else if r < 0x10000 {
      assert r / 4096 == (r / 64) / 64;
    } else {
      assert r / 4096 == (r / 64) / 64;
      assert r / 262144 == (r / 4096) / 64;
    }
  }

  /** Decoding an encoded rune gives it back, whatever follows it. */
  lemma DecodeEncode(r: int, rest: seq<Byte>)
    requires IsScalar(r)
    ensures DecodeRune(EncodeRune(r) + rest) == (r, |EncodeRune(r)|)
  {
    var e := EncodeRune(r);
    var p := e + rest;
    if |e| >= 2 {
      AssembleEncode(r);
      assert p[..|e|] == e;
      assert Assemble(p, |e|) == Assemble(e, |e|);
    }
  }

  /** A byte answered with (RuneError, 1) starts no encoding of any rune. */
  lemma InvalidStartsNoRune(p: seq<Byte>, r: int)
    requires DecodeRune(p) == (RuneError, 1) && IsScalar(r)
    ensures !(|EncodeRune(r)| <= |p| && EncodeRune(r) == p[..|EncodeRune(r)|])
  {
    var e := EncodeRune(r);
    if |e| <= |p| && e == p[..|e|] {
      assert p == e + p[|e|..];
      DecodeEncode(r, p[|e|..]);
    }
  }
}
