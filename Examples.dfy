/** The concrete passwords of the encoder's own test suite, worked through
    the model: which of them are truncated, to what, and what is logged. */
module Examples {
  import opened Utf8
  import opened Truncation
  import opened PasswordEncoder

  /** `String.valueOf(c).repeat(n)`. */
  function Repeat(c: char, n: nat): (r: string)
    ensures |r| == n
    ensures forall k :: 0 <= k < n ==> r[k] == c
  {
    if n == 0 then [] else [c] + Repeat(c, n - 1)
  }

  /** A run of one ASCII character takes one byte per character. */
  lemma {:induction false} Utf8LengthRepeat(c: char, n: nat)
    requires c as int < 0x80
    ensures Utf8Length(Repeat(c, n)) == n
  {
    if n > 0 {
      assert Repeat(c, n)[1..] == Repeat(c, n - 1);
      Utf8LengthRepeat(c, n - 1);
    }
  }

  /** ASCII text takes one byte per character. */
  lemma {:induction false} Utf8LengthAscii(s: string)
    requires forall k :: 0 <= k < |s| ==> s[k] as int < 0x80
    ensures Utf8Length(s) == |s|
  {
    if s != [] {
      Utf8LengthAscii(s[1..]);
    }
  }

  /** The test suite's two short passwords take one byte per character. */
  lemma ShortPasswordLengths()
    ensures Utf8Length("password") == 8 && Utf8Length("wrongpassword") == 13
  {
    Utf8LengthAscii("password");
    Utf8LengthAscii("wrongpassword");
  }

  /** A run of one ASCII character is cut to exactly the budget. */
  lemma {:induction false} TakeWithinRepeat(c: char, n: nat, budget: nat)
    requires c as int < 0x80
    ensures TakeWithin(Repeat(c, n), budget) == Repeat(c, if n <= budget then n else budget)
  {
    if n > 0 && budget > 0 {
      assert Repeat(c, n)[1..] == Repeat(c, n - 1);
      TakeWithinRepeat(c, n - 1, budget - 1);
    }
  }

  /** `"a".repeat(100)` becomes `"a".repeat(72)`, logged as 100 bytes cut to 72. */
  lemma HundredLetters()
    ensures Truncate(Repeat('a', 100)) == Repeat('a', MaxBytes)
    ensures Logged(Repeat('a', 100)) == [Warning(100, 72, 72)]
  {
    Utf8LengthRepeat('a', 100);
    Utf8LengthRepeat('a', MaxBytes);
    TakeWithinRepeat('a', 100, MaxBytes);
  }

  /** A password of exactly 72 one-byte characters passes unchanged and unlogged. */
  lemma PasswordAtMaxLength()
    ensures Utf8Length(Repeat('a', MaxBytes)) == 72
    ensures Truncate(Repeat('a', MaxBytes)) == Repeat('a', MaxBytes)
    ensures Logged(Repeat('a', MaxBytes)) == []
  {
    Utf8LengthRepeat('a', MaxBytes);
  }

  /** 71 letters and a euro sign take 74 bytes; the euro sign straddles the
      limit and is dropped whole, leaving 71 bytes. */
  lemma EuroAtTheLimit()
    ensures Utf8Length(Repeat('a', 71) + ['€']) == 74
    ensures Truncate(Repeat('a', 71) + ['€']) == Repeat('a', 71)
    ensures Logged(Repeat('a', 71) + ['€']) == [Warning(74, 72, 71)]
  {
    var head := Repeat('a', 71);
    Utf8LengthRepeat('a', 71);
    Utf8LengthAppend(head, ['€']);
    assert Utf8Length(['€']) == 3;
    TakeWithinAppend(head, ['€'], MaxBytes);
    assert TakeWithin(['€'], 1) == [];
    assert head + [] == head;
  }

  /** 72 a's followed by 28 b's truncates like 100 a's. */
  lemma SamePrefixSameTruncation()
    ensures Truncate(Repeat('a', MaxBytes) + Repeat('b', 28)) == Truncate(Repeat('a', 100))
    ensures Logged(Repeat('a', MaxBytes) + Repeat('b', 28)) == [Warning(100, 72, 72)]
  {
    HundredLetters();
    var head := Repeat('a', MaxBytes);
    Utf8LengthRepeat('a', MaxBytes);
    Utf8LengthRepeat('b', 28);
    Utf8LengthAppend(head, Repeat('b', 28));
    TakeWithinAppend(head, Repeat('b', 28), MaxBytes);
    TakeWithinRepeat('b', 28, 0);
    assert head + [] == head;
  }

  /** 72 b's followed by 28 a's keeps its b's, so it differs from 100 a's
      after truncation, and is still logged. */
  lemma DifferentPrefixDifferentTruncation()
    ensures Truncate(Repeat('b', MaxBytes) + Repeat('a', 28)) == Repeat('b', MaxBytes)
    ensures Truncate(Repeat('b', MaxBytes) + Repeat('a', 28)) != Truncate(Repeat('a', 100))
    ensures Logged(Repeat('b', MaxBytes) + Repeat('a', 28)) == [Warning(100, 72, 72)]
  {
    HundredLetters();
    var head := Repeat('b', MaxBytes);
    Utf8LengthRepeat('b', MaxBytes);
    Utf8LengthRepeat('a', 28);
    Utf8LengthAppend(head, Repeat('a', 28));
    TakeWithinAppend(head, Repeat('a', 28), MaxBytes);
    TakeWithinRepeat('a', 28, 0);
    assert head + [] == head;
    assert head[0] != Repeat('a', MaxBytes)[0];
  }

  /** The test suite's long-password scenario on one encoder: `encode` of
      100 a's, then `matches` with the password itself, its 72-byte
      truncation, a password with the same first 72 bytes, one with a
      different prefix and a short one; each overlong password logs one
      warning (100 bytes cut to 72) and the others log nothing. */
  method LongPasswordScenario(b: BCrypt, salt: Salt)
      returns (itself: bool, truncated: bool, samePrefix: bool, differentPrefix: bool, short: bool)
    requires Sound(b) && Exact(b)
    ensures itself && truncated && samePrefix
    ensures !differentPrefix && !short
  {
    HundredLetters();
    SamePrefixSameTruncation();
    DifferentPrefixDifferentTruncation();
    Utf8LengthRepeat('a', MaxBytes);
    var long, cut := Repeat('a', 100), Repeat('a', MaxBytes);
    var warned := [Warning(100, 72, 72)];
    var encoder := new TruncatingBCryptPasswordEncoder(b);
    var hash := encoder.Encode(long, salt);
    assert encoder.warnings == warned;

    MatchesIffSameTruncation(b, long, long, salt);
    itself := encoder.Matches(long, hash);
    assert encoder.warnings == warned + warned;

    MatchesIffSameTruncation(b, cut, long, salt);
    truncated := encoder.Matches(cut, hash);
    assert encoder.warnings == warned + warned;

    MatchesIffSameTruncation(b, Repeat('a', MaxBytes) + Repeat('b', 28), long, salt);
    samePrefix := encoder.Matches(Repeat('a', MaxBytes) + Repeat('b', 28), hash);

    MatchesIffSameTruncation(b, Repeat('b', MaxBytes) + Repeat('a', 28), long, salt);
    differentPrefix := encoder.Matches(Repeat('b', MaxBytes) + Repeat('a', 28), hash);
    assert encoder.warnings == warned + warned + warned + warned;

    ShortPasswordLengths();
    assert Truncate("password") != Truncate(long);
    MatchesIffSameTruncation(b, "password", long, salt);
    short := encoder.Matches("password", hash);
    assert encoder.warnings == warned + warned + warned + warned;
  }

  /** The test suite's short-password case: "password" matches its own hash,
      "wrongpassword" does not, and neither is logged. */
  lemma ShortPassword(b: BCrypt, salt: Salt)
    requires Sound(b) && Exact(b)
    ensures Matched(b, "password", Encoded(b, "password", salt))
    ensures !Matched(b, "wrongpassword", Encoded(b, "password", salt))
    ensures Logged("password") == [] && Logged("wrongpassword") == []
  {
    ShortPasswordLengths();
    MatchesIffSameTruncation(b, "password", "password", salt);
    MatchesIffSameTruncation(b, "wrongpassword", "password", salt);
  }
}
