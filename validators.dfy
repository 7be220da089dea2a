/** The FluentValidation rule sets UpdateTaskRequestValidator and
    LoginRequestValidator. A validator yields the list of failures in rule
    order; every rule of a chain runs (FluentValidation's default cascade), so
    an empty title fails both NotEmpty and Length. A request is valid when the
    list is empty. */
module Validators {
  import opened Common
  import opened Entities

  datatype ValidationFailure = ValidationFailure(propertyName: string, errorMessage: string)

  /** char.IsWhiteSpace: the Unicode space, line and paragraph separators and
      the controls U+0009 to U+000D and U+0085. */
  predicate IsWhiteSpace(c: char) {
    var n := c as int;
    (0x09 <= n <= 0x0D) || n == 0x20 || n == 0x85 || n == 0xA0 || n == 0x1680 ||
    (0x2000 <= n <= 0x200A) || n == 0x2028 || n == 0x2029 || n == 0x202F ||
    n == 0x205F || n == 0x3000
  }

  /** string.IsNullOrWhiteSpace. */
  predicate IsNullOrWhiteSpace(s: Option<string>) {
    s.None? || forall i :: 0 <= i < |s.value| ==> IsWhiteSpace(s.value[i])
  }

  /** NotEmpty() on a string property. */
  predicate NotEmpty(s: Option<string>) {
    !IsNullOrWhiteSpace(s)
  }

  /** string.Length: the number of UTF-16 code units. A character outside the
      Basic Multilingual Plane takes a surrogate pair, one inside it a single
      unit. */
  function Utf16Length(s: string): (n: nat)
    ensures |s| <= n <= 2 * |s|
    decreases |s|
  {
    if s == [] then 0 else (if s[0] as int < 0x10000 then 1 else 2) + Utf16Length(s[1..])
  }

  /** The UTF-16 length equals the number of characters exactly when every
      character lies in the Basic Multilingual Plane, and is twice it exactly
      when none does. */
  lemma {:induction false} Utf16LengthCases(s: string)
    ensures Utf16Length(s) == |s| <==> forall i :: 0 <= i < |s| ==> s[i] as int < 0x10000
    ensures Utf16Length(s) == 2 * |s| <==> forall i :: 0 <= i < |s| ==> s[i] as int >= 0x10000
    decreases |s|
  {
    if s != [] {
      Utf16LengthCases(s[1..]);
      assert forall i :: 1 <= i < |s| ==> s[i] == s[1..][i - 1];
    }
  }

  /** Length(min, max), and MinimumLength(min) when max is -1: a null value
      passes, NotEmpty is what rejects it. Lengths are string.Length. */
  predicate LengthBetween(s: Option<string>, min: int, max: int) {
    s.None? || (min <= Utf16Length(s.value) && (max == -1 || Utf16Length(s.value) <= max))
  }

  function Rule(holds: bool, propertyName: string, errorMessage: string): seq<ValidationFailure> {
    if holds then [] else [ValidationFailure(propertyName, errorMessage)]
  }

  const TitleRequired := "Title is required"
  const TitleLength := "Title must be between 1 and 100 characters"
  const DescriptionRequired := "Description is required"
  const DescriptionLength := "Description must be between 1 and 500 characters"
  const DueDateInFuture := "Due date must be in the future"
  const InvalidStatus := "Invalid task status"

  /** RuleFor(x => x.Title).NotEmpty().Length(1, 100). */
  function TitleRules(title: string): (errors: seq<ValidationFailure>)
    ensures forall e <- errors :: e.propertyName == "Title"
    ensures ValidationFailure("Title", TitleRequired) in errors <==> IsNullOrWhiteSpace(Some(title))
    ensures ValidationFailure("Title", TitleLength) in errors <==> !(1 <= Utf16Length(title) <= 100)
  {
    Rule(NotEmpty(Some(title)), "Title", TitleRequired) + Rule(LengthBetween(Some(title), 1, 100), "Title", TitleLength)
  }

  /** RuleFor(x => x.Description).NotEmpty().Length(1, 500). */
  function DescriptionRules(description: Option<string>): (errors: seq<ValidationFailure>)
    ensures forall e <- errors :: e.propertyName == "Description"
    ensures ValidationFailure("Description", DescriptionRequired) in errors <==> IsNullOrWhiteSpace(description)
    ensures ValidationFailure("Description", DescriptionLength) in errors <==>
      (description.Some? && !(1 <= Utf16Length(description.value) <= 500))
  {
    Rule(NotEmpty(description), "Description", DescriptionRequired)
    + Rule(LengthBetween(description, 1, 500), "Description", DescriptionLength)
  }

  /** UpdateTaskRequestValidator; `now` is the DateTime.Now it compares the
      due date against. */
  function ValidateUpdateTask(r: UpdateTaskRequest, now: DateTime): (errors: seq<ValidationFailure>)
    ensures errors == [] <==>
      && !IsNullOrWhiteSpace(Some(r.title)) && 1 <= Utf16Length(r.title) <= 100
      && r.description.Some? && !IsNullOrWhiteSpace(r.description) && 1 <= Utf16Length(r.description.value) <= 500
      && r.dueDate > now
      && 0 <= r.status <= 2
  {
    var title := TitleRules(r.title);
    var description := DescriptionRules(r.description);
    var dueDate := Rule(r.dueDate > now, "DueDate", DueDateInFuture);
    var status := Rule(StatusOf(r.status).Some?, "Status", InvalidStatus);
    assert title == [] <==> !IsNullOrWhiteSpace(Some(r.title)) && 1 <= Utf16Length(r.title) <= 100 by {
      if title == [] {
        assert ValidationFailure("Title", TitleRequired) !in title;
      }
    }
    assert description == [] <==>
      r.description.Some? && !IsNullOrWhiteSpace(r.description) && 1 <= Utf16Length(r.description.value) <= 500
    by {
      if description == [] {
        assert ValidationFailure("Description", DescriptionRequired) !in description;
      }
    }
    title + description + dueDate + status
  }

  /** The failures a validator reports for one property, in order. */
  function FailuresFor(errors: seq<ValidationFailure>, propertyName: string): seq<ValidationFailure>
  {
    if errors == [] then []
    else if errors[0].propertyName == propertyName then [errors[0]] + FailuresFor(errors[1..], propertyName)
    else FailuresFor(errors[1..], propertyName)
  }

  lemma {:induction false} FailuresForAppend(a: seq<ValidationFailure>, b: seq<ValidationFailure>, propertyName: string)
    ensures FailuresFor(a + b, propertyName) == FailuresFor(a, propertyName) + FailuresFor(b, propertyName)
    decreases |a|
  {
    if a == [] {
      assert a + b == b;
    } else {
      assert (a + b)[0] == a[0];
      assert (a + b)[1..] == a[1..] + b;
      FailuresForAppend(a[1..], b, propertyName);
    }
  }

  lemma {:induction false} FailuresForOnly(errors: seq<ValidationFailure>, propertyName: string)
    requires forall e <- errors :: e.propertyName == propertyName
    ensures FailuresFor(errors, propertyName) == errors
    decreases |errors|
  {
    if errors != [] {
      FailuresForOnly(errors[1..], propertyName);
    }
  }

  lemma {:induction false} FailuresForNone(errors: seq<ValidationFailure>, propertyName: string)
    requires forall e <- errors :: e.propertyName != propertyName
    ensures FailuresFor(errors, propertyName) == []
    decreases |errors|
  {
    if errors != [] {
      FailuresForNone(errors[1..], propertyName);
    }
  }

  /** Filtering four concatenated chains filters each of them. */
  lemma FailuresForFour(t: seq<ValidationFailure>, d: seq<ValidationFailure>, u: seq<ValidationFailure>,
                        s: seq<ValidationFailure>, propertyName: string)
    ensures FailuresFor(t + d + u + s, propertyName)
      == FailuresFor(t, propertyName) + FailuresFor(d, propertyName)
         + FailuresFor(u, propertyName) + FailuresFor(s, propertyName)
  {
    FailuresForAppend(t + d + u, s, propertyName);
    FailuresForAppend(t + d, u, propertyName);
    FailuresForAppend(t, d, propertyName);
  }

  /** The failures of four chains for the property of the k-th chain alone
      are that chain, when each chain reports under its own property. */
  lemma FailuresForPick(t: seq<ValidationFailure>, d: seq<ValidationFailure>, u: seq<ValidationFailure>,
                        s: seq<ValidationFailure>, names: seq<string>, k: nat)
    requires |names| == 4 && k < 4
    requires forall i, j :: 0 <= i < j < 4 ==> names[i] != names[j]
    requires forall e <- t :: e.propertyName == names[0]
    requires forall e <- d :: e.propertyName == names[1]
    requires forall e <- u :: e.propertyName == names[2]
    requires forall e <- s :: e.propertyName == names[3]
    ensures FailuresFor(t + d + u + s, names[k]) == [t, d, u, s][k]
  {
    var n := names[k];
    FailuresForFour(t, d, u, s, n);
    if k == 0 { FailuresForOnly(t, n); } else { FailuresForNone(t, n); }
    if k == 1 { FailuresForOnly(d, n); } else { FailuresForNone(d, n); }
    if k == 2 { FailuresForOnly(u, n); } else { FailuresForNone(u, n); }
    if k == 3 { FailuresForOnly(s, n); } else { FailuresForNone(s, n); }
  }

  /** Each property's failures come from its own rule chain alone: the title
      and description are judged independently of each other and of the other
      two fields. */
  lemma UpdateTaskFailuresPerField(r: UpdateTaskRequest, now: DateTime)
    ensures FailuresFor(ValidateUpdateTask(r, now), "Title") == TitleRules(r.title)
    ensures FailuresFor(ValidateUpdateTask(r, now), "Description") == DescriptionRules(r.description)
    ensures FailuresFor(ValidateUpdateTask(r, now), "DueDate") == Rule(r.dueDate > now, "DueDate", DueDateInFuture)
    ensures FailuresFor(ValidateUpdateTask(r, now), "Status") == Rule(0 <= r.status <= 2, "Status", InvalidStatus)
  {
    var t := TitleRules(r.title);
    var d := DescriptionRules(r.description);
    var u := Rule(r.dueDate > now, "DueDate", DueDateInFuture);
    var s := Rule(StatusOf(r.status).Some?, "Status", InvalidStatus);
    var names := ["Title", "Description", "DueDate", "Status"];
    assert ValidateUpdateTask(r, now) == t + d + u + s;
    FailuresForPick(t, d, u, s, names, 0);
    FailuresForPick(t, d, u, s, names, 1);
    FailuresForPick(t, d, u, s, names, 2);
    FailuresForPick(t, d, u, s, names, 3);
  }

  const UserNameRequired := "Username is required"
  const UserNameLength := "Username must be between 3 and 50 characters"
  const PassWordRequired := "Password is required"
  const PassWordLength := "Password must be at least 6 characters"

  /** LoginRequestValidator. */
  function ValidateLogin(r: LoginRequest): (errors: seq<ValidationFailure>)
    ensures ValidationFailure("UserName", UserNameRequired) in errors <==> IsNullOrWhiteSpace(Some(r.userName))
    ensures ValidationFailure("UserName", UserNameLength) in errors <==> !(3 <= Utf16Length(r.userName) <= 50)
    ensures ValidationFailure("PassWord", PassWordRequired) in errors <==> IsNullOrWhiteSpace(Some(r.passWord))
    ensures ValidationFailure("PassWord", PassWordLength) in errors <==> Utf16Length(r.passWord) < 6
    ensures |errors| <= 4
  {
    Rule(NotEmpty(Some(r.userName)), "UserName", UserNameRequired)
    + Rule(LengthBetween(Some(r.userName), 3, 50), "UserName", UserNameLength)
    + Rule(NotEmpty(Some(r.passWord)), "PassWord", PassWordRequired)
    + Rule(LengthBetween(Some(r.passWord), 6, -1), "PassWord", PassWordLength)
  }

  /** A login request passes iff the user name is not blank and has 3 to 50
      characters and the password is not blank and has at least 6 (no upper
      bound). */
  lemma LoginValidIff(r: LoginRequest)
    ensures ValidateLogin(r) == [] <==>
      && !IsNullOrWhiteSpace(Some(r.userName)) && 3 <= Utf16Length(r.userName) <= 50
      && !IsNullOrWhiteSpace(Some(r.passWord)) && Utf16Length(r.passWord) >= 6
  {
    var errors := ValidateLogin(r);
    if errors == [] {
      assert ValidationFailure("UserName", UserNameRequired) !in errors;
    }
  }

  /** A string with one character that is not white space is not blank. */
  lemma NotBlank(s: string, i: int)
    requires 0 <= i < |s| && !IsWhiteSpace(s[i])
    ensures !IsNullOrWhiteSpace(Some(s))
  {
  }

  /** The lengths of the plain ASCII literals the examples below use. */
  lemma AsciiLengths()
    ensures Utf16Length("") == 0 && Utf16Length("t") == 1 && Utf16Length("d") == 1
    ensures Utf16Length("abc") == 3 && Utf16Length("secret") == 6 && Utf16Length("short") == 5
  {
    Utf16LengthCases("abc");
    Utf16LengthCases("secret");
    Utf16LengthCases("short");
  }

  /** An empty title fails both rules of its chain: NotEmpty and Length. */
  lemma EmptyTitleRejected(now: DateTime)
    ensures var e := ValidateUpdateTask(UpdateTaskRequest("", Some("d"), 0, now + 1), now);
      e == [ValidationFailure("Title", TitleRequired), ValidationFailure("Title", TitleLength)]
  {
    NotBlank("d", 0);
    AsciiLengths();
  }

  /** A null description fails only NotEmpty: Length passes a null. */
  lemma NullDescriptionRejected(now: DateTime)
    ensures ValidateUpdateTask(UpdateTaskRequest("t", None, 0, now + 1), now)
      == [ValidationFailure("Description", DescriptionRequired)]
  {
    NotBlank("t", 0);
    AsciiLengths();
  }

  /** A six-character password is the shortest one accepted; five characters
      fail MinimumLength alone. */
  lemma LoginExamples()
    ensures ValidateLogin(LoginRequest("abc", "secret")) == []
    ensures ValidateLogin(LoginRequest("abc", "short")) == [ValidationFailure("PassWord", PassWordLength)]
  {
    NotBlank("abc", 0);
    NotBlank("secret", 0);
    NotBlank("short", 0);
    AsciiLengths();
  }

  /** Lengths are UTF-16 lengths: three emoji are six code units, so they
      meet MinimumLength(6), while 51 of them exceed a maximum of 100. */
  lemma SurrogatePairsCountTwice(now: DateTime)
    ensures ValidateLogin(LoginRequest("abc", "\U{1F600}\U{1F600}\U{1F600}")) == []
    ensures ValidationFailure("Title", TitleLength) in TitleRules(seq(51, _ => '\U{1F600}'))
  {
    NotBlank("abc", 0);
    var p := "\U{1F600}\U{1F600}\U{1F600}";
    NotBlank(p, 0);
    assert Utf16Length(p) == 6 by {
      assert p[1..][1..][1..] == [];
    }
    var t := seq(51, _ => '\U{1F600}');
    Utf16LengthCases(t);
    assert Utf16Length(t) == 102;
  }
}
