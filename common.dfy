/** Values shared by every service of the backend: the optional and
    failure-carrying wrappers, one error per exception class the services
    throw, and the Java string operations the services
    rely on (startsWith, lastIndexOf, substring, replace, trim). */
module Common {

  datatype Option<+T> = None | Some(value: T)

  /** Why a duplicate check failed (ErrorCode.DUPLICATE_ID / _NICKNAME / _EMAIL). */
  datatype DuplicateCode = DuplicateId | DuplicateNickname | DuplicateEmail

  /** One constructor per exception class a service lets escape. */
  datatype Error =
    | ThemeNotFound
    | ReactionNotFound
    | UnexpectedReactionType(requested: Option<string>)
    | ReviewNotFound
    | ReviewAlreadyLiked
    | ReviewNotLiked
    | InvalidUser
    | CommunityPostNotFound
    | CommentNotFound
    | MemberNotFound
    | LoginRequired
    | EntityNotFound(message: string)
    | EventPostNotFound
    | NoticePostNotFound
    | Duplicate(code: DuplicateCode)
    | PasswordNotMatched
    | ExpiredToken
    | EmailSend
    | InvalidEmailCode(message: string)
    | IllegalArgument(message: string)
    | NoSuchElement
    | NullPointer
    | StringIndexOutOfBounds
    | NotNullViolation

  datatype Result<+T> = Success(value: T) | Failure(error: Error) {
    predicate IsFailure() { Failure? }
  }

  /** Outcome of a service method that returns nothing (Java `void`). */
  datatype Outcome = Done | Fail(error: Error)

  predicate StartsWith(s: string, prefix: string) {
    |prefix| <= |s| && s[..|prefix|] == prefix
  }

  /** `String.lastIndexOf(c)`: the last position of `c`, or -1. */
  function LastIndexOf(s: string, c: char): (r: int)
    ensures -1 <= r < |s|
    ensures r == -1 <==> c !in s
    ensures 0 <= r ==> s[r] == c && forall k :: r < k < |s| ==> s[k] != c
  {
    if s == [] then -1
    else if s[|s| - 1] == c then |s| - 1
    else LastIndexOf(s[..|s| - 1], c)
  }

  /** `name.substring(0, name.lastIndexOf("."))`: the name cut before its
      last dot; `substring(0, -1)` throws when there is no dot. */
  function StemBeforeLastDot(name: string): (r: Result<string>)
    ensures r.Failure? <==> '.' !in name
    ensures r.Failure? ==> r.error == StringIndexOutOfBounds
    ensures r.Success? ==>
      (|r.value| < |name| && r.value == name[..|r.value|]
       && name[|r.value|] == '.' && '.' !in name[|r.value| + 1..])
  {
    var i := LastIndexOf(name, '.');
    if i < 0 then Failure(StringIndexOutOfBounds) else Success(name[..i])
  }

  /** `s.replace(c, "")` for a single character, as in `uuid.replace("-", "")`. */
  function RemoveChar(s: string, c: char): (r: string)
    ensures c !in r
    ensures |r| <= |s|
    ensures c !in s ==> r == s
    ensures forall x :: x in r <==> x in s && x != c
    ensures multiset(r) == multiset(s)[c := 0]
  {
    if s == [] then []
    else
      assert s == [s[0]] + s[1..];
      if s[0] == c then RemoveChar(s[1..], c)
      else [s[0]] + RemoveChar(s[1..], c)
  }

  /** Removing a character distributes over concatenation, so the kept
      characters stay in their order. */
  lemma {:induction false} RemoveCharConcat(a: string, b: string, c: char)
    ensures RemoveChar(a + b, c) == RemoveChar(a, c) + RemoveChar(b, c)
    decreases |a|
  {
    if a != [] {
      assert (a + b)[0] == a[0] && (a + b)[1..] == a[1..] + b;
      RemoveCharConcat(a[1..], b, c);
    } else {
      assert a + b == b;
    }
  }

  /** `s.replace(target, "")`: every occurrence of a non-empty `target`,
      scanning left to right without overlap, is removed. */
  function RemoveAll(s: string, target: string): (r: string)
    ensures |r| <= |s|
    ensures multiset(r) <= multiset(s)
    ensures |target| > 0 && StartsWith(s, target) ==> |r| <= |s| - |target|
    decreases |s|
  {
    if |target| == 0 || |s| < |target| then s
    else if s[..|target|] == target then
      assert s == s[..|target|] + s[|target|..];
      RemoveAll(s[|target|..], target)
    else
      assert s == [s[0]] + s[1..];
      [s[0]] + RemoveAll(s[1..], target)
  }

  predicate OccursAt(s: string, target: string, i: int) {
    0 <= i && i + |target| <= |s| && s[i..i + |target|] == target
  }

  /** `target` occurs somewhere in `s`. */
  ghost predicate Occurs(s: string, target: string) {
    exists i :: OccursAt(s, target, i)
  }

  /** Removing a pattern that does not occur changes nothing. */
  lemma {:induction false} RemoveAllAbsent(s: string, target: string)
    requires |target| > 0 && !Occurs(s, target)
    ensures RemoveAll(s, target) == s
    decreases |s|
  {
    if |s| >= |target| {
      assert !OccursAt(s, target, 0);
      assert !Occurs(s[1..], target) by {
        forall i | 0 <= i && i + |target| <= |s[1..]|
          ensures !OccursAt(s[1..], target, i)
        {
          assert s[1..][i..i + |target|] == s[i + 1..i + 1 + |target|];
          assert !OccursAt(s, target, i + 1);
        }
      }
      RemoveAllAbsent(s[1..], target);
      assert [s[0]] + s[1..] == s;
    }
  }

  /** The token that the filter hands on: a header made of the prefix and a
      token in which the prefix does not occur yields exactly that token. */
  lemma RemoveAllLeadingPrefix(prefix: string, token: string)
    requires |prefix| > 0 && !Occurs(token, prefix)
    ensures RemoveAll(prefix + token, prefix) == token
  {
    var s := prefix + token;
    assert s[..|prefix|] == prefix;
    assert s[|prefix|..] == token;
    RemoveAllAbsent(token, prefix);
  }

  /** Characters `String.trim()` strips: every code point up to U+0020. */
  predicate IsTrimmed(c: char) { c <= ' ' }

  function TrimStart(s: string): (r: string)
    ensures |r| <= |s| && r == s[|s| - |r|..]
    ensures r != [] ==> !IsTrimmed(r[0])
    ensures forall k :: 0 <= k < |s| - |r| ==> IsTrimmed(s[k])
  {
    if s != [] && IsTrimmed(s[0]) then TrimStart(s[1..]) else s
  }

  function TrimEnd(s: string): (r: string)
    ensures |r| <= |s| && r == s[..|r|]
    ensures r != [] ==> !IsTrimmed(r[|r| - 1])
    ensures forall k :: |r| <= k < |s| ==> IsTrimmed(s[k])
  {
    if s != [] && IsTrimmed(s[|s| - 1]) then TrimEnd(s[..|s| - 1]) else s
  }

  /** `String.trim()`. */
  function Trim(s: string): string {
    TrimEnd(TrimStart(s))
  }

  /** `s.trim().isEmpty()` holds exactly when every character is one that
      trim strips. */
  lemma TrimEmptyIffBlank(s: string)
    ensures Trim(s) == [] <==> forall k :: 0 <= k < |s| ==> IsTrimmed(s[k])
  {
    var t := TrimStart(s);
    if Trim(s) == [] {
      assert t == [];
    } else {
      var r := Trim(s);
      assert !IsTrimmed(r[0]);
      assert r[0] == t[0] == s[|s| - |t|];
    }
  }
}
