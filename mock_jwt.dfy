/** MockJwtService, the test suite's stand-in for the token service: the
    token is a fixed prefix followed by the user's id in decimal. */
module MockJwtService {
  import opened Common
  import opened Int32
  import opened Entities

  const Prefix: string := "mock-jwt-token-for-user-"

  predicate StartsWith(s: string, p: string) {
    |p| <= |s| && s[..|p|] == p
  }

  /** GenerateToken: `$"mock-jwt-token-for-user-{user.Id}"`. */
  function GenerateToken(user: User): (token: string)
    ensures StartsWith(token, Prefix) && |token| > |Prefix|
    ensures token[|Prefix|..] == ToDecimalString(user.id)
  {
    Prefix + ToDecimalString(user.id)
  }

  /** String.Replace(p, ""): deletes every occurrence of p, scanning left to
      right without overlaps and without rescanning what is left behind. */
  function RemoveAll(s: string, p: string): string
    requires p != []
    decreases |s|
  {
    if |s| < |p| then s
    else if s[..|p|] == p then RemoveAll(s[|p|..], p)
    else [s[0]] + RemoveAll(s[1..], p)
  }

  /** GetUserIdFromToken: null for a null or empty token or one without the
      prefix; otherwise the text left after deleting every occurrence of the
      prefix, if int.TryParse accepts it. */
  function GetUserIdFromToken(token: Option<string>): (r: Option<int32>)
    ensures token.None? || token == Some("") ==> r.None?
    ensures r.Some? ==> StartsWith(token.value, Prefix) && r == ParseInt32(RemoveAll(token.value, Prefix))
  {
    if token.None? || token.value == "" then None
    else if StartsWith(token.value, Prefix) then ParseInt32(RemoveAll(token.value, Prefix))
    else None
  }

  /** Text without the pattern's first character holds no occurrence of it. */
  lemma {:induction false} RemoveAllAbsent(s: string, p: string)
    requires p != []
    requires forall i :: 0 <= i < |s| ==> s[i] != p[0]
    ensures RemoveAll(s, p) == s
    decreases |s|
  {
    if |s| >= |p| {
      assert s[..|p|][0] == s[0] != p[0];
      RemoveAllAbsent(s[1..], p);
      assert s == [s[0]] + s[1..];
    }
  }

  lemma RemoveAllLeading(p: string, s: string)
    requires p != []
    ensures RemoveAll(p + s, p) == RemoveAll(s, p)
  {
    assert (p + s)[..|p|] == p;
    assert (p + s)[|p|..] == s;
  }

  /** Round trip: a token the mock issued decodes to the id it was issued for. */
  lemma TokenRoundTrip(user: User)
    requires InRange(user.id)
    ensures GetUserIdFromToken(Some(GenerateToken(user))) == Some(user.id as int32)
  {
    var digits := ToDecimalString(user.id);
    assert GenerateToken(user) == Prefix + digits;
    RemoveAllLeading(Prefix, digits);
    RemoveAllAbsent(digits, Prefix);
    ParseToDecimalString(user.id);
  }

  /** A token not starting with the prefix decodes to nothing, even when the
      prefix occurs later in it. */
  lemma ForeignTokenRejected(token: string)
    requires !StartsWith(token, Prefix)
    ensures GetUserIdFromToken(Some(token)) == None
  {
  }

  /** The prefix followed by text that is not an int32 numeral decodes to
      nothing: here a letter, and a value one past int.MaxValue. */
  lemma MalformedTokensRejected()
    ensures GetUserIdFromToken(Some(Prefix + "abc")) == None
    ensures GetUserIdFromToken(Some(Prefix + ToDecimalString(MaxValue + 1))) == None
  {
    RemoveAllLeading(Prefix, "abc");
    RemoveAllAbsent("abc", Prefix);
    ParseRejectsForeignChar("abc", 0);
    var big := ToDecimalString(MaxValue + 1);
    assert StartsWith(Prefix + big, Prefix);
    RemoveAllLeading(Prefix, big);
    RemoveAllAbsent(big, Prefix);
    ParseRejectsOverflow(MaxValue + 1);
  }

  /** A leading character that cannot start the pattern is kept. */
  lemma RemoveAllKeeps(c: char, s: string, p: string)
    requires p != [] && c != p[0]
    ensures RemoveAll([c] + s, p) == [c] + RemoveAll(s, p)
  {
    var t := [c] + s;
    if |t| >= |p| {
      assert t[..|p|][0] == c;
      assert t[1..] == s;
    }
  }

  /** Every occurrence of the prefix is deleted, not just the leading one:
      the token for user 4 with the prefix and a 2 appended decodes as 42. */
  lemma EveryPrefixRemoved()
    ensures GetUserIdFromToken(Some(Prefix + "4" + Prefix + "2")) == Some(42)
  {
    var t := Prefix + "4" + Prefix + "2";
    assert t == Prefix + ("4" + (Prefix + "2"));
    assert StartsWith(t, Prefix);
    RemoveAllLeading(Prefix, "4" + (Prefix + "2"));
    RemoveAllKeeps('4', Prefix + "2", Prefix);
    RemoveAllLeading(Prefix, "2");
    RemoveAllAbsent("2", Prefix);
    assert RemoveAll(t, Prefix) == "42";
    assert ToDecimalString(42) == "42";
    ParseToDecimalString(42);
  }

  /** int.TryParse ignores NULs after the numeral, so the prefix followed by
      "5" and a NUL decodes as 5. */
  lemma TrailingNulAccepted()
    ensures GetUserIdFromToken(Some(Prefix + "5\0")) == Some(5)
  {
    var rest := "5\0";
    assert StartsWith(Prefix + rest, Prefix);
    RemoveAllLeading(Prefix, rest);
    RemoveAllAbsent(rest, Prefix);
    assert ToDecimalString(5) == "5";
    assert rest == ToDecimalString(5) + seq(1, _ => '\0');
    ParseIgnoresTrailingNuls(5, 1);
  }
}
