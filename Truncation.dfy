/** What `truncateIfNeeded` computes, as functions on values: the password
    itself when its UTF-8 form fits in bcrypt's 72-byte key, otherwise its
    longest prefix of whole characters that fits. */
module Truncation {
  import opened Utf8

  /** bcrypt's usable key length in bytes (`MAX_BYTES`). */
  const MaxBytes: nat := 72

  /** The longest prefix of `s` whose UTF-8 form fits in `budget` bytes:
      characters are taken from the front while the next one still fits. */
  function TakeWithin(s: string, budget: int): string {
    if s == [] || Width(s[0]) > budget then []
    else [s[0]] + TakeWithin(s[1..], budget - Width(s[0]))
  }

  /** The password `truncateIfNeeded` hands on to bcrypt. */
  function Truncate(s: string): (r: string)
    ensures r <= s
    ensures Utf8Length(r) <= MaxBytes
  {
    TakeWithinBounds(s, MaxBytes);
    if Utf8Length(s) <= MaxBytes then s else TakeWithin(s, MaxBytes)
  }

  // ---------------------------------------------------------------------------
  // Lemmas about TakeWithin

  /** TakeWithin keeps a prefix of `s` that fits the budget (nothing when
      the budget is negative). */
  lemma {:induction false} TakeWithinBounds(s: string, budget: int)
    ensures TakeWithin(s, budget) <= s
    ensures Utf8Length(TakeWithin(s, budget)) <= budget || (TakeWithin(s, budget) == [] && budget < 0)
  {
    if s != [] && Width(s[0]) <= budget {
      var r := TakeWithin(s[1..], budget - Width(s[0]));
      TakeWithinBounds(s[1..], budget - Width(s[0]));
      assert TakeWithin(s, budget) == [s[0]] + r;
      assert ([s[0]] + r)[1..] == r;
      assert s[..1 + |r|] == [s[0]] + s[1..][..|r|];
    }
  }

  /** Every prefix that fits the budget is no longer than what TakeWithin keeps. */
  lemma {:induction false} TakeWithinLongest(s: string, budget: int, n: nat)
    requires n <= |s| && Utf8Length(s[..n]) <= budget
    ensures n <= |TakeWithin(s, budget)|
  {
    if n > 0 {
      var t := s[..n];
      assert t[0] == s[0] && t[1..] == s[1..][..n - 1];
      TakeWithinLongest(s[1..], budget - Width(s[0]), n - 1);
    }
  }

  /** When TakeWithin stops early, the character it stops at would overflow the budget. */
  lemma {:induction false} TakeWithinStopsAtOverflow(s: string, budget: int)
    requires |TakeWithin(s, budget)| < |s|
    ensures Utf8Length(TakeWithin(s, budget)) + Width(s[|TakeWithin(s, budget)|]) > budget
  {
    if Width(s[0]) <= budget {
      TakeWithinStopsAtOverflow(s[1..], budget - Width(s[0]));
    }
  }

  /** A string that fits is kept whole. */
  lemma {:induction false} TakeWithinAll(s: string, budget: int)
    requires Utf8Length(s) <= budget
    ensures TakeWithin(s, budget) == s
  {
    assert s[..|s|] == s;
    TakeWithinBounds(s, budget);
    TakeWithinLongest(s, budget, |s|);
  }

  /** Taking one character that fits into `acc` and then the rest within
      what is left of the budget is taking within the whole budget. */
  lemma TakeWithinStep(acc: string, s: string, budget: int, left: int)
    requires s != [] && Width(s[0]) <= budget && left == budget - Width(s[0])
    ensures (acc + [s[0]]) + TakeWithin(s[1..], left) == acc + TakeWithin(s, budget)
  {
    var rest := TakeWithin(s[1..], left);
    assert (acc + [s[0]]) + rest == acc + ([s[0]] + rest);
  }

  /** A head that fits is kept whole, and the budget it leaves goes to the tail. */
  lemma {:induction false} TakeWithinAppend(s: string, t: string, budget: int)
    requires Utf8Length(s) <= budget
    ensures TakeWithin(s + t, budget) == s + TakeWithin(t, budget - Utf8Length(s))
  {
    if s == [] {
      assert s + t == t;
    } else {
      assert (s + t)[0] == s[0] && (s + t)[1..] == s[1..] + t;
      TakeWithinAppend(s[1..], t, budget - Width(s[0]));
    }
  }

  // ---------------------------------------------------------------------------
  // Properties of Truncate

  /** The password is returned unchanged exactly when its UTF-8 form fits in 72 bytes. */
  lemma TruncateUnchangedIff(s: string)
    ensures Truncate(s) == s <==> Utf8Length(s) <= MaxBytes
  {
  }

  /** Prefixes that fit are exactly those no longer than the result: the
      result is the longest whole-character prefix within 72 bytes. */
  lemma TruncateIsLongest(s: string, n: nat)
    requires n <= |s|
    ensures Utf8Length(s[..n]) <= MaxBytes <==> n <= |Truncate(s)|
  {
    var r := Truncate(s);
    if Utf8Length(s[..n]) <= MaxBytes {
      if Utf8Length(s) > MaxBytes {
        TakeWithinLongest(s, MaxBytes, n);
      }
    } else if n <= |r| {
      assert r[..n] == s[..n];
      Utf8LengthPrefix(r, n);
      assert false;
    }
  }

  /** Only the character straddling the 72-byte boundary is lost, so a
      truncated password keeps more than 72 - 4 bytes. */
  lemma TruncateKeepsAllButLastChar(s: string)
    requires Utf8Length(s) > MaxBytes
    ensures MaxBytes - 3 <= Utf8Length(Truncate(s)) <= MaxBytes
    ensures |Truncate(s)| < |s|
  {
    var r := TakeWithin(s, MaxBytes);
    TakeWithinBounds(s, MaxBytes);
    if |r| == |s| {
      assert r == s[..|s|] == s;
    }
    TakeWithinStopsAtOverflow(s, MaxBytes);
  }

  /** Truncating twice is truncating once. */
  lemma TruncateIdempotent(s: string)
    ensures Truncate(Truncate(s)) == Truncate(s)
  {
  }

  /** Decoding a cut-off copy `x[..k]` of bytes that hold the UTF-8 form of
      `s` from offset `i` on appends the longest prefix of `s` that fits in
      the `k - i` bytes left. */
  lemma {:induction false} DecodeEncodedFrom(x: seq<Byte>, i: nat, s: string, k: nat, acc: string)
    requires i <= k <= |x| && x[i..] == Encode(s)
    ensures DecodeFrom(x[..k], i, acc) == acc + TakeWithin(s, k - i)
    decreases |s|
  {
    if s == [] {
      assert |x| == i == k;
      assert DecodeFrom(x[..k], i, acc) == acc;
      assert acc + TakeWithin(s, k - i) == acc;
    } else {
      SliceAppend(x, i, EncodeChar(s[0]), Encode(s[1..]));
      if k - i < Width(s[0]) {
        DecodeEncodedSplit(x, i, s, k, acc);
        assert DecodeFrom(x[..k], i, acc) == acc + TakeWithin(s, k - i);
      } else {
        var c, w := s[0], Width(s[0]);
        DecodeCutWhole(x, k, i, c, acc);
        DecodeEncodedFrom(x, i + w, s[1..], k, acc + [c]);
        TakeWithinStep(acc, s, k - i, k - (i + w));
      }
    }
  }

  /** DecodeEncodedFrom when the cut splits the next character. */
  lemma DecodeEncodedSplit(x: seq<Byte>, i: nat, s: string, k: nat, acc: string)
    requires s != [] && i <= k < i + Width(s[0]) <= |x|
    requires x[i..i + Width(s[0])] == EncodeChar(s[0])
    ensures DecodeFrom(x[..k], i, acc) == acc + TakeWithin(s, k - i)
  {
    DecodeCutSplit(x, k, i, s[0], acc);
    assert TakeWithin(s, k - i) == [];
    assert acc + [] == acc;
  }

  /** The JDK route in `truncateIfNeeded`: decoding the first `k` bytes of
      the UTF-8 form, dropping malformed input, gives the longest
      whole-character prefix that fits in `k` bytes. */
  lemma DecodeEncodedPrefix(s: string, k: nat)
    requires k <= Utf8Length(s)
    ensures DecodeLenient(Encode(s)[..k]) == TakeWithin(s, k)
  {
    var x := Encode(s);
    assert x[0..] == x;
    DecodeEncodedFrom(x, 0, s, k, []);
    assert [] + TakeWithin(s, k) == TakeWithin(s, k);
  }

  /** Decoding undoes encoding. */
  lemma DecodeEncode(s: string)
    ensures DecodeLenient(Encode(s)) == s
  {
    DecodeEncodedPrefix(s, Utf8Length(s));
    assert Encode(s)[..Utf8Length(s)] == Encode(s);
    TakeWithinAll(s, Utf8Length(s));
  }

  /** What the source computes for an overlong password, decoding the first
      72 bytes with malformed input ignored, is Truncate. */
  lemma TruncateByDecoding(s: string)
    requires Utf8Length(s) > MaxBytes
    ensures Truncate(s) == DecodeLenient(Encode(s)[..MaxBytes])
  {
    DecodeEncodedPrefix(s, MaxBytes);
  }

  /** Two overlong passwords whose UTF-8 forms agree on the first 72 bytes truncate alike. */
  lemma SharedPrefixSameTruncation(p: string, q: string)
    requires Utf8Length(p) > MaxBytes && Utf8Length(q) > MaxBytes
    requires Encode(p)[..MaxBytes] == Encode(q)[..MaxBytes]
    ensures Truncate(p) == Truncate(q)
  {
    TruncateByDecoding(p);
    TruncateByDecoding(q);
  }
}
