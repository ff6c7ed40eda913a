/** `TruncatingBCryptPasswordEncoder`: a bcrypt password encoder that first
    cuts every password down to bcrypt's 72-byte key and logs a warning when it
    has to.

    bcrypt itself (Spring Security's `BCryptPasswordEncoder`) is an abstract
    pair of functions; its random salt is a parameter of `Encode`. The SLF4J
    logger is the ghost list `warnings` that every truncation appends to. */
module PasswordEncoder {
  import opened Utf8
  import opened Truncation

  /** bcrypt's self-describing encoded hash string. */
  type Hash = string

  /** The salt bcrypt draws at random for every `encode`. */
  type Salt = seq<Byte>

  /** The inherited bcrypt primitive, already configured with its strength:
      `super.encode` and `super.matches`. */
  datatype BCrypt = BCrypt(hash: (string, Salt) -> Hash, verify: (string, Hash) -> bool)

  /** bcrypt accepts every password within its key length against its own hash. */
  ghost predicate Sound(b: BCrypt) {
    forall p: string, salt: Salt :: Utf8Length(p) <= MaxBytes ==> b.verify(p, b.hash(p, salt))
  }

  /** bcrypt tells apart any two distinct passwords within its key length
      (collision freedom, which the source's tests rely on for their negative cases). */
  ghost predicate Exact(b: BCrypt) {
    forall p: string, q: string, salt: Salt ::
      Utf8Length(p) <= MaxBytes && Utf8Length(q) <= MaxBytes && b.verify(p, b.hash(q, salt)) ==> p == q
  }

  /** One warning: original byte length, the limit, truncated byte length. */
  datatype Warning = Warning(originalBytes: nat, limit: nat, truncatedBytes: nat)

  /** The warnings one call of `truncateIfNeeded` logs for `raw`. */
  function Logged(raw: string): seq<Warning> {
    if Utf8Length(raw) <= MaxBytes then []
    else [Warning(Utf8Length(raw), MaxBytes, Utf8Length(Truncate(raw)))]
  }

  /** The hash `encode(raw)` returns for a given salt. */
  function Encoded(b: BCrypt, raw: string, salt: Salt): Hash {
    b.hash(Truncate(raw), salt)
  }

  /** What `matches(raw, encoded)` answers. */
  predicate Matched(b: BCrypt, raw: string, encoded: Hash) {
    b.verify(Truncate(raw), encoded)
  }

  /** `s.getBytes(UTF_8)`: the UTF-8 form of `s` in a new array. */
  method GetBytes(s: string) returns (bytes: array<Byte>)
    ensures fresh(bytes)
    ensures bytes[..] == Encode(s)
  {
    var out: seq<Byte> := [];
    var i := 0;
    while i < |s|
      invariant i <= |s|
      invariant out == Encode(s[..i])
    {
      assert s[..i + 1] == s[..i] + [s[i]];
      EncodeAppend(s[..i], [s[i]]);
      out := out + EncodeChar(s[i]);
      i := i + 1;
    }
    assert s[..i] == s;
    bytes := new Byte[|out|](k requires 0 <= k < |out| => out[k]);
  }

  /** `decoder.decode(bb, cb, true)` followed by `decoder.flush(cb)` for a
      UTF-8 decoder that ignores malformed input: decodes `bb[..limit]` into
      `cb` from index 0 and returns the buffer's new position. */
  method DecodeInto(bb: array<Byte>, limit: nat, cb: array<char>) returns (position: nat)
    requires limit <= bb.Length && limit <= cb.Length
    modifies cb
    ensures position <= limit
    ensures cb[..position] == DecodeLenient(bb[..limit])
    ensures cb[position..] == old(cb[position..])
  {
    var bs := bb[..limit];
    ghost var whole := DecodeLenient(bs);
    var i := 0;
    position := 0;
    assert cb[..0] == [];
    while i < limit
      invariant i <= limit && position <= i
      invariant DecodeFrom(bs, i, cb[..position]) == whole
      invariant cb[position..] == old(cb[position..])
    {
      var step := DecodeOne(bs[i..]);
      if step.Some? {
        var c := step.value.c;
        ghost var done, rest := cb[..position], cb[position + 1..];
        assert rest == old(cb[position + 1..]);
        cb[position] := c;
        assert cb[..position + 1] == done + [c];
        assert cb[position + 1..] == rest;
        position := position + 1;
        i := i + step.value.size;
      } else {
        i := i + 1;
      }
    }
  }

  class TruncatingBCryptPasswordEncoder {
    /** The inherited bcrypt primitive. */
    const bcrypt: BCrypt
    /** Every warning logged so far, oldest first. */
    ghost var warnings: seq<Warning>

    /** Both Java constructors: the strength is part of `bcrypt`. */
    constructor (bcrypt: BCrypt)
      ensures this.bcrypt == bcrypt && warnings == []
    {
      this.bcrypt := bcrypt;
      warnings := [];
    }

    /** `truncateIfNeeded`: the password, or the longest prefix of it that
        fits in 72 UTF-8 bytes, logging a warning in the second case. */
    method TruncateIfNeeded(raw: string) returns (result: string)
      modifies this`warnings
      ensures result == Truncate(raw)
      ensures warnings == old(warnings) + Logged(raw)
    {
      var bytes := GetBytes(raw);
      if bytes.Length <= MaxBytes {
        return raw;
      }
      var cb := new char[MaxBytes];
      var position := DecodeInto(bytes, MaxBytes, cb);
      result := cb[..position];
      TruncateByDecoding(raw);
      var resultBytes := GetBytes(result);
      warnings := warnings + [Warning(bytes.Length, MaxBytes, resultBytes.Length)];
    }

    /** `encode`: bcrypt of the truncated password. */
    method Encode(raw: string, salt: Salt) returns (encoded: Hash)
      modifies this`warnings
      ensures encoded == bcrypt.hash(Truncate(raw), salt)
      ensures warnings == old(warnings) + Logged(raw)
    {
      var toEncode := TruncateIfNeeded(raw);
      encoded := bcrypt.hash(toEncode, salt);
    }

    /** `matches`: bcrypt's verdict on the truncated password; the warning
        is logged whatever the verdict. */
    method Matches(raw: string, encodedPassword: Hash) returns (ok: bool)
      modifies this`warnings
      ensures ok == bcrypt.verify(Truncate(raw), encodedPassword)
      ensures warnings == old(warnings) + Logged(raw)
    {
      var toMatch := TruncateIfNeeded(raw);
      ok := bcrypt.verify(toMatch, encodedPassword);
    }
  }

  // ---------------------------------------------------------------------------
  // Lemmas

  /** Exactly one warning is logged when, and only when, the password is
      changed; it carries the original length, 72 and a truncated length that
      lost only the split character. */
  lemma LoggedIffTruncated(raw: string)
    ensures |Logged(raw)| <= 1
    ensures |Logged(raw)| == 1 <==> Truncate(raw) != raw
    ensures |Logged(raw)| == 1 ==>
      var w := Logged(raw)[0];
      w.originalBytes > w.limit == MaxBytes && MaxBytes - 3 <= w.truncatedBytes <= MaxBytes
  {
    if Utf8Length(raw) > MaxBytes {
      TruncateKeepsAllButLastChar(raw);
    }
  }

  /** A password that fits goes to bcrypt untouched and logs nothing. */
  lemma ShortPasswordPassesThrough(b: BCrypt, raw: string, salt: Salt, encoded: Hash)
    requires Utf8Length(raw) <= MaxBytes
    ensures Encoded(b, raw, salt) == b.hash(raw, salt)
    ensures Matched(b, raw, encoded) == b.verify(raw, encoded)
    ensures Logged(raw) == []
  {
  }

  /** With a sound bcrypt, every password matches its own hash, and so does
      its truncation, which logs nothing. */
  lemma MatchesOwnEncoding(b: BCrypt, raw: string, salt: Salt)
    requires Sound(b)
    ensures Matched(b, raw, Encoded(b, raw, salt))
    ensures Matched(b, Truncate(raw), Encoded(b, raw, salt)) && Logged(Truncate(raw)) == []
  {
    TruncateIdempotent(raw);
  }

  /** Two overlong passwords that share their first 72 UTF-8 bytes cannot be
      told apart by `matches`. */
  lemma SharedPrefixIndistinguishable(b: BCrypt, p: string, q: string, encoded: Hash)
    requires Utf8Length(p) > MaxBytes && Utf8Length(q) > MaxBytes
    requires Encode(p)[..MaxBytes] == Encode(q)[..MaxBytes]
    ensures Matched(b, p, encoded) == Matched(b, q, encoded)
  {
    SharedPrefixSameTruncation(p, q);
  }

  /** With a sound and exact bcrypt, `p` matches the hash of `q` exactly when
      the two truncate to the same password. */
  lemma MatchesIffSameTruncation(b: BCrypt, p: string, q: string, salt: Salt)
    requires Sound(b) && Exact(b)
    ensures Matched(b, p, Encoded(b, q, salt)) <==> Truncate(p) == Truncate(q)
  {
    var tp, tq := Truncate(p), Truncate(q);
    if tp == tq {
      assert b.verify(tq, b.hash(tq, salt));
    }
  }
}
