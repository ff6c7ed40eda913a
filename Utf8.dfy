/** UTF-8, as defined by section 3 of RFC 3629: the encoding Java's
    `String.getBytes(UTF_8)` produces, and a lenient decoder that behaves like
    the JDK's UTF-8 `CharsetDecoder` with both error actions set to IGNORE.

    A Dafny `char` is a Unicode scalar value (0 .. 0x10FFFF without the
    surrogates), so a password is simply a `string`. */
module Utf8 {
  import opened Wrappers

  /** An octet. */
  type Byte = b: int | 0 <= b < 0x100

  /** A continuation byte, 10xxxxxx. */
  predicate IsContinuation(b: Byte) {
    0x80 <= b < 0xC0
  }

  /** The number of bytes UTF-8 spends on `c` (the table of section 3 of RFC 3629). */
  function Width(c: char): (w: nat)
    ensures 1 <= w <= 4
  {
    var n := c as int;
    if n < 0x80 then 1
    else if n < 0x800 then 2
    else if n < 0x10000 then 3
    else 4
  }

  /** The UTF-8 byte length of a whole string: `s.getBytes(UTF_8).length`. */
  function Utf8Length(s: string): nat {
    if s == [] then 0 else Width(s[0]) + Utf8Length(s[1..])
  }

  /** The UTF-8 encoding of one scalar value. */
  function EncodeChar(c: char): (bs: seq<Byte>)
    ensures |bs| == Width(c)
    ensures !IsContinuation(bs[0])
    ensures forall k :: 1 <= k < |bs| ==> IsContinuation(bs[k])
  {
    var n := c as int;
    if n < 0x80 then
      [n]
    else if n < 0x800 then
      [0xC0 + n / 0x40, 0x80 + n % 0x40]
    else if n < 0x10000 then
      [0xE0 + n / 0x1000, 0x80 + (n / 0x40) % 0x40, 0x80 + n % 0x40]
    else
      [0xF0 + n / 0x40000, 0x80 + (n / 0x1000) % 0x40, 0x80 + (n / 0x40) % 0x40, 0x80 + n % 0x40]
  }

  /** The UTF-8 encoding of a string: `s.getBytes(UTF_8)`. */
  function Encode(s: string): (bs: seq<Byte>)
    ensures |bs| == Utf8Length(s)
  {
    if s == [] then [] else EncodeChar(s[0]) + Encode(s[1..])
  }

  /** How many bytes a sequence starting with lead byte `b` claims to span;
      0 when `b` cannot start a sequence (a continuation byte, or 0xF8 .. 0xFF). */
  function SequenceLength(b: Byte): nat {
    if b < 0x80 then 1
    else if 0xC0 <= b < 0xE0 then 2
    else if 0xE0 <= b < 0xF0 then 3
    else if 0xF0 <= b < 0xF8 then 4
    else 0
  }

  /** Bytes 1 .. n-1 of `bs` are all continuation bytes (a sequence spans at most 4). */
  predicate ContinuationsFollow(bs: seq<Byte>, n: nat)
    requires n <= |bs| && n <= 4
  {
    (n < 2 || IsContinuation(bs[1])) &&
    (n < 3 || IsContinuation(bs[2])) &&
    (n < 4 || IsContinuation(bs[3]))
  }

  /** One decoded scalar value and the number of bytes it took. */
  datatype Decoded = Decoded(c: char, size: nat)

  /** The value the payload bits of the first `n` bytes of `bs` spell out. */
  function Payload(bs: seq<Byte>, n: nat): int
    requires 1 <= n <= 4 && n <= |bs|
  {
    var b0, b1, b2, b3: int := bs[0], if n > 1 then bs[1] else 0, if n > 2 then bs[2] else 0, if n > 3 then bs[3] else 0;
    if n == 1 then b0
    else if n == 2 then (b0 - 0xC0) * 0x40 + (b1 - 0x80)
    else if n == 3 then (b0 - 0xE0) * 0x1000 + (b1 - 0x80) * 0x40 + (b2 - 0x80)
    else (b0 - 0xF0) * 0x40000 + (b1 - 0x80) * 0x1000 + (b2 - 0x80) * 0x40 + (b3 - 0x80)
  }

  /** The smallest value that needs `n` bytes: anything below is an overlong form. */
  function MinValue(n: nat): int {
    if n <= 1 then 0 else if n == 2 then 0x80 else if n == 3 then 0x800 else 0x10000
  }

  /** Decodes the sequence at the front of `bs`, or None when it is malformed
      (bad lead byte, bad continuation byte, overlong form, surrogate, beyond
      0x10FFFF) or incomplete (runs past the end of `bs`). The accepted
      sequences are exactly the well-formed ones of section 4 of RFC 3629. */
  function DecodeOne(bs: seq<Byte>): (r: Option<Decoded>)
    ensures r.Some? ==> 1 <= r.value.size <= |bs|
  {
    if |bs| == 0 then None
    else
      var n := SequenceLength(bs[0]);
      if n == 0 || n > |bs| then None
      else if !ContinuationsFollow(bs, n) then None
      else
        var v := Payload(bs, n);
        if v < MinValue(n) || (0xD800 <= v < 0xE000) || 0x110000 <= v then None
        else Some(Decoded(v as char, n))
  }

  /** Decodes `bs` from offset `i` on and appends the result to `acc`,
      silently dropping every byte that does not start a well-formed sequence
      (CodingErrorAction.IGNORE with the end of input reached): the JDK
      decoder's loop filling its output buffer. */
  function DecodeFrom(bs: seq<Byte>, i: nat, acc: string): string
    requires i <= |bs|
    decreases |bs| - i
  {
    if i == |bs| then acc
    else match DecodeOne(bs[i..])
      case Some(d) => DecodeFrom(bs, i + d.size, acc + [d.c])
      case None => DecodeFrom(bs, i + 1, acc)
  }

  /** The whole of `bs`, decoded with malformed input ignored. */
  function DecodeLenient(bs: seq<Byte>): (r: string)
    ensures |r| <= |bs| && Utf8Length(r) <= |bs|
  {
    DecodeFromFits(bs, 0, []);
    DecodeFrom(bs, 0, [])
  }

  // ---------------------------------------------------------------------------
  // Lemmas

  /** Every sequence the decoder accepts is the encoding of the character
      it yields, so the decoder accepts exactly the well-formed sequences. */
  lemma DecodeOneSound(bs: seq<Byte>)
    requires DecodeOne(bs).Some?
    ensures bs[..DecodeOne(bs).value.size] == EncodeChar(DecodeOne(bs).value.c)
  {
    var n := SequenceLength(bs[0]);
    var c := Payload(bs, n) as char;
    assert DecodeOne(bs).value == Decoded(c, n);
    if n == 1 {
      assert bs[..1] == [bs[0]];
    } else if n == 2 {
      assert bs[..2] == [bs[0], bs[1]];
      EncodeTwoBytes(c, bs[0], bs[1]);
    } else if n == 3 {
      assert bs[..3] == [bs[0], bs[1], bs[2]];
      EncodeThreeBytes(c, bs[0], bs[1], bs[2]);
    } else {
      assert bs[..4] == [bs[0], bs[1], bs[2], bs[3]];
      EncodeFourBytes(c, bs[0], bs[1], bs[2], bs[3]);
    }
  }

  /** Six-bit digits are read back by division and remainder. */
  lemma PayloadDigits(d0: int, d1: int, d2: int, d3: int)
    requires 0 <= d0 && 0 <= d1 < 0x40 && 0 <= d2 < 0x40 && 0 <= d3 < 0x40
    ensures var v := d0 * 0x40000 + d1 * 0x1000 + d2 * 0x40 + d3;
      v / 0x40 == d0 * 0x1000 + d1 * 0x40 + d2 && v % 0x40 == d3 &&
      v / 0x1000 == d0 * 0x40 + d1 && (v / 0x40) % 0x40 == d2 &&
      v / 0x40000 == d0 && (v / 0x1000) % 0x40 == d1
  {
  }

  /** A character in the two-byte range spelt by a lead and a continuation byte encodes as those bytes. */
  lemma EncodeTwoBytes(c: char, b0: Byte, b1: Byte)
    requires 0xC0 <= b0 < 0xE0 && IsContinuation(b1)
    requires c as int == (b0 - 0xC0) * 0x40 + (b1 - 0x80) && 0x80 <= c as int
    ensures EncodeChar(c) == [b0, b1]
  {
    PayloadDigits(b0 - 0xC0, 0, 0, b1 - 0x80);
  }

  /** Likewise for the three-byte range. */
  lemma EncodeThreeBytes(c: char, b0: Byte, b1: Byte, b2: Byte)
    requires 0xE0 <= b0 < 0xF0 && IsContinuation(b1) && IsContinuation(b2)
    requires c as int == (b0 - 0xE0) * 0x1000 + (b1 - 0x80) * 0x40 + (b2 - 0x80) && 0x800 <= c as int
    ensures EncodeChar(c) == [b0, b1, b2]
  {
    PayloadDigits(b0 - 0xE0, 0, b1 - 0x80, b2 - 0x80);
  }

  /** Likewise for the four-byte range. */
  lemma EncodeFourBytes(c: char, b0: Byte, b1: Byte, b2: Byte, b3: Byte)
    requires 0xF0 <= b0 < 0xF8 && IsContinuation(b1) && IsContinuation(b2) && IsContinuation(b3)
    requires c as int == (b0 - 0xF0) * 0x40000 + (b1 - 0x80) * 0x1000 + (b2 - 0x80) * 0x40 + (b3 - 0x80)
    requires 0x10000 <= c as int
    ensures EncodeChar(c) == [b0, b1, b2, b3]
  {
    PayloadDigits(b0 - 0xF0, b1 - 0x80, b2 - 0x80, b3 - 0x80);
  }

  /** A decoded sequence is never an overlong form: it takes exactly the
      bytes its character needs. */
  lemma DecodeOneWidth(bs: seq<Byte>)
    requires DecodeOne(bs).Some?
    ensures DecodeOne(bs).value.size == Width(DecodeOne(bs).value.c)
  {
  }

  /** The lenient decoder never fails, yields at most one character per byte,
      and what it yields re-encodes to no more bytes than it consumed:
      decoding 72 bytes can never give a password over 72 bytes. */
  lemma {:induction false} DecodeFromFits(bs: seq<Byte>, i: nat, acc: string)
    requires i <= |bs|
    ensures |DecodeFrom(bs, i, acc)| <= |acc| + (|bs| - i)
    ensures Utf8Length(DecodeFrom(bs, i, acc)) <= Utf8Length(acc) + (|bs| - i)
    decreases |bs| - i
  {
    if i < |bs| {
      match DecodeOne(bs[i..])
      case Some(d) =>
        DecodeOneWidth(bs[i..]);
        Utf8LengthAppend(acc, [d.c]);
        DecodeFromFits(bs, i + d.size, acc + [d.c]);
      case None =>
        DecodeFromFits(bs, i + 1, acc);
    }
  }

  /** From an offset where only continuation bytes remain, nothing more is decoded. */
  lemma {:induction false} DecodeFromContinuations(bs: seq<Byte>, i: nat, acc: string)
    requires i <= |bs|
    requires forall k :: i <= k < |bs| ==> IsContinuation(bs[k])
    ensures DecodeFrom(bs, i, acc) == acc
    decreases |bs| - i
  {
    if i < |bs| {
      assert bs[i..][0] == bs[i];
      DecodeFromContinuations(bs, i + 1, acc);
    }
  }

  /** Byte length adds up over concatenation. */
  lemma {:induction false} Utf8LengthAppend(s: string, t: string)
    ensures Utf8Length(s + t) == Utf8Length(s) + Utf8Length(t)
  {
    if s == [] {
      assert s + t == t;
    } else {
      assert (s + t)[0] == s[0] && (s + t)[1..] == s[1..] + t;
      Utf8LengthAppend(s[1..], t);
    }
  }

  /** Encoding distributes over concatenation. */
  lemma {:induction false} EncodeAppend(s: string, t: string)
    ensures Encode(s + t) == Encode(s) + Encode(t)
  {
    if s == [] {
      assert s + t == t;
    } else {
      assert (s + t)[0] == s[0] && (s + t)[1..] == s[1..] + t;
      EncodeAppend(s[1..], t);
    }
  }

  /** Where the bytes from offset `i` on are `e + r`, `e` starts at `i` and `r` follows it. */
  lemma SliceAppend(x: seq<Byte>, i: nat, e: seq<Byte>, r: seq<Byte>)
    requires i <= |x| && x[i..] == e + r
    ensures i + |e| <= |x| && x[i..i + |e|] == e && x[i + |e|..] == r
  {
    assert x[i..][..|e|] == e;
    assert x[i..][|e|..] == r;
  }

  /** A string takes at least one and at most four bytes per character. */
  lemma {:induction false} Utf8LengthBounds(s: string)
    ensures |s| <= Utf8Length(s) <= 4 * |s|
  {
    if s != [] {
      Utf8LengthBounds(s[1..]);
    }
  }

  /** A prefix never takes more bytes than the whole string. */
  lemma {:induction false} Utf8LengthPrefix(s: string, n: nat)
    requires n <= |s|
    ensures Utf8Length(s[..n]) <= Utf8Length(s)
  {
    assert s == s[..n] + s[n..];
    Utf8LengthAppend(s[..n], s[n..]);
  }

  /** The arithmetic of the two-byte form: lead and trail bits give back `n`. */
  lemma TwoByteDigits(n: int)
    requires 0x80 <= n < 0x800
    ensures (n / 0x40) * 0x40 + n % 0x40 == n
  {
  }

  lemma ThreeByteDigits(n: int)
    requires 0x800 <= n < 0x10000
    ensures (n / 0x1000) * 0x1000 + ((n / 0x40) % 0x40) * 0x40 + n % 0x40 == n
  {
    var q := n / 0x40;
    assert q / 0x40 == n / 0x1000;
    assert (q / 0x40) * 0x40 + q % 0x40 == q;
  }

  lemma FourByteDigits(n: int)
    requires 0x10000 <= n < 0x110000
    ensures (n / 0x40000) * 0x40000 + ((n / 0x1000) % 0x40) * 0x1000
            + ((n / 0x40) % 0x40) * 0x40 + n % 0x40 == n
  {
    var q := n / 0x40;
    var p := q / 0x40;
    assert p == n / 0x1000;
    assert p / 0x40 == n / 0x40000;
    assert (p / 0x40) * 0x40 + p % 0x40 == p;
    assert p * 0x40 + q % 0x40 == q;
  }

  /** The payload bits of a character's own encoding are the character. */
  lemma PayloadOfEncodeChar(c: char, rest: seq<Byte>)
    ensures Payload(EncodeChar(c) + rest, Width(c)) == c as int
  {
    var n := c as int;
    var bs := EncodeChar(c) + rest;
    if n < 0x80 {
    } else if n < 0x800 {
      TwoByteDigits(n);
    } else if n < 0x10000 {
      ThreeByteDigits(n);
    } else {
      FourByteDigits(n);
    }
  }

  /** The lead byte of a character's encoding announces its width. */
  lemma SequenceLengthOfEncodeChar(c: char)
    ensures SequenceLength(EncodeChar(c)[0]) == Width(c)
  {
  }

  /** Decoding the front of `EncodeChar(c) + rest` gives back `c`, whatever follows. */
  lemma DecodeOneEncodeChar(c: char, rest: seq<Byte>)
    ensures DecodeOne(EncodeChar(c) + rest) == Some(Decoded(c, Width(c)))
  {
    var e := EncodeChar(c);
    var bs := e + rest;
    var n := Width(c);
    assert bs[0] == e[0];
    SequenceLengthOfEncodeChar(c);
    assert forall k :: 1 <= k < n ==> bs[k] == e[k];
    PayloadOfEncodeChar(c, rest);
  }

  /** A whole encoded character at offset `i` is decoded and appended. */
  lemma DecodeFromWholeChar(bs: seq<Byte>, i: nat, c: char, acc: string)
    requires i + Width(c) <= |bs| && bs[i..i + Width(c)] == EncodeChar(c)
    ensures DecodeFrom(bs, i, acc) == DecodeFrom(bs, i + Width(c), acc + [c])
  {
    var w := Width(c);
    assert bs[i..] == EncodeChar(c) + bs[i + w..];
    DecodeOneEncodeChar(c, bs[i + w..]);
  }

  /** A character cut short by the end of `bs` at offset `i` is dropped, and
      decoding ends there. */
  lemma DecodeFromSplitChar(bs: seq<Byte>, i: nat, c: char, acc: string)
    requires i < |bs| && |bs| - i < Width(c) && bs[i..] == EncodeChar(c)[..|bs| - i]
    ensures DecodeFrom(bs, i, acc) == acc
  {
    var e := EncodeChar(c);
    SequenceLengthOfEncodeChar(c);
    assert bs[i..][0] == e[0];
    assert DecodeOne(bs[i..]).None?;
    forall j | i + 1 <= j < |bs|
      ensures IsContinuation(bs[j])
    {
      assert bs[j] == bs[i..][j - i] == e[j - i];
    }
    DecodeFromContinuations(bs, i + 1, acc);
  }

  /** Decoding a cut-off copy `x[..k]` of bytes that hold `EncodeChar(c)` at
      offset `i`, where all of the character's bytes survive the cut: the
      character is appended and decoding goes on after it. */
  lemma DecodeCutWhole(x: seq<Byte>, k: nat, i: nat, c: char, acc: string)
    requires i + Width(c) <= k <= |x| && x[i..i + Width(c)] == EncodeChar(c)
    ensures DecodeFrom(x[..k], i, acc) == DecodeFrom(x[..k], i + Width(c), acc + [c])
  {
    var bs, w, e := x[..k], Width(c), EncodeChar(c);
    assert bs[i..i + w] == e by {
      forall j | 0 <= j < w
        ensures bs[i..i + w][j] == e[j]
      {
        assert x[i..i + w][j] == x[i + j];
      }
    }
    DecodeFromWholeChar(bs, i, c, acc);
  }

  /** Decoding a cut-off copy `x[..k]` of bytes that hold `EncodeChar(c)` at
      offset `i`, where the cut splits the character: decoding ends at `i`. */
  lemma DecodeCutSplit(x: seq<Byte>, k: nat, i: nat, c: char, acc: string)
    requires i <= k < i + Width(c) <= |x| && x[i..i + Width(c)] == EncodeChar(c)
    ensures DecodeFrom(x[..k], i, acc) == acc
  {
    var bs, w, e := x[..k], Width(c), EncodeChar(c);
    if k > i {
      assert bs[i..] == e[..k - i] by {
        forall j | 0 <= j < k - i
          ensures bs[i..][j] == e[j]
        {
          assert x[i..i + w][j] == x[i + j];
        }
      }
      DecodeFromSplitChar(bs, i, c, acc);
    }
  }
}
