/** `EmailService`: the eight-character verification code, its delivery and
    storage under the address, and the check of a code the user types back.
    The random number generator is given as the sequence of its draws, and
    whether the mail server accepted the message as a flag. */
module EmailService {
  import opened Common
  import opened RedisService

  /** The length of every verification code. */
  const CodeLength := 8

  /** One loop iteration's two calls to `Random`: `nextInt(3)` picks the
      kind of character (lower-case, upper-case, digit), then `nextInt(26)`
      or `nextInt(10)` picks the character. */
  datatype Draw = Draw(kind: int, value: int)

  /** The ranges those calls return in. */
  predicate InRange(d: Draw) {
    0 <= d.kind < 3 && 0 <= d.value && (if d.kind == 2 then d.value < 10 else d.value < 26)
  }

  predicate IsAlphanumeric(c: char) {
    ('a' <= c <= 'z') || ('A' <= c <= 'Z') || ('0' <= c <= '9')
  }

  /** The character one draw appends: `(char) (v + 97)`, `(char) (v + 65)`,
      or the decimal digit of `v`. */
  function CodeChar(d: Draw): (c: char)
    requires InRange(d)
    ensures IsAlphanumeric(c)
    ensures d.kind == 0 <==> 'a' <= c <= 'z'
    ensures d.kind == 1 <==> 'A' <= c <= 'Z'
    ensures d.kind == 2 <==> '0' <= c <= '9'
  {
    if d.kind == 0 then (97 + d.value) as char
    else if d.kind == 1 then (65 + d.value) as char
    else (48 + d.value) as char
  }

  /** The code a sequence of draws spells, one character per draw. */
  function CodeOf(draws: seq<Draw>): (code: string)
    requires forall i :: 0 <= i < |draws| ==> InRange(draws[i])
    ensures |code| == |draws|
    ensures forall i :: 0 <= i < |draws| ==> code[i] == CodeChar(draws[i])
  {
    seq(|draws|, i requires 0 <= i < |draws| && InRange(draws[i]) => CodeChar(draws[i]))
  }

  /** The draws that spell a given alphanumeric string. */
  function DrawFor(c: char): (d: Draw)
    requires IsAlphanumeric(c)
    ensures InRange(d) && CodeChar(d) == c
  {
    if 'a' <= c <= 'z' then Draw(0, c as int - 97)
    else if 'A' <= c <= 'Z' then Draw(1, c as int - 65)
    else Draw(2, c as int - 48)
  }

  /** Every eight-character string of letters and digits is a code
      `createNumber` can produce, so the codes are exactly those strings. */
  lemma EveryAlphanumericCodeReachable(code: string)
    requires |code| == CodeLength && forall i :: 0 <= i < |code| ==> IsAlphanumeric(code[i])
    ensures exists draws: seq<Draw> ::
      |draws| == CodeLength && (forall i :: 0 <= i < |draws| ==> InRange(draws[i])) && CodeOf(draws) == code
  {
    var draws := seq(|code|, i requires 0 <= i < |code| && IsAlphanumeric(code[i]) => DrawFor(code[i]));
    assert CodeOf(draws) == code;
  }

  /** `createNumber`: eight iterations, each appending the character its
      draws pick. The result is eight letters or digits. */
  method CreateNumber(draws: seq<Draw>) returns (key: string)
    requires |draws| == CodeLength && forall i :: 0 <= i < |draws| ==> InRange(draws[i])
    ensures key == CodeOf(draws)
    ensures |key| == CodeLength && forall i :: 0 <= i < |key| ==> IsAlphanumeric(key[i])
  {
    key := "";
    var i := 0;
    while i < CodeLength
      invariant 0 <= i <= CodeLength && |key| == i
      invariant forall j :: 0 <= j < i ==> key[j] == CodeChar(draws[j])
    {
      key := key + [CodeChar(draws[i])];
      i := i + 1;
    }
  }

  /** `sendSimpleMessage` as a function of the store: a message the mail
      server refuses fails with `EmailSend` and stores nothing; otherwise the
      code is stored under the address and returned. */
  function SendOutcome(kv: Store, email: string, draws: seq<Draw>, delivered: bool)
    : (r: (Result<string>, Store))
    requires |draws| == CodeLength && forall i :: 0 <= i < |draws| ==> InRange(draws[i])
    ensures r.0.Success? <==> delivered
    ensures r.0.Failure? ==> r.0.error == EmailSend && r.1 == kv
    ensures r.0.Success? ==>
      r.0.value == CodeOf(draws) && r.1 == WithEmailCode(kv, email, r.0.value)
  {
    if !delivered then (Failure(EmailSend), kv)
    else (Success(CodeOf(draws)), WithEmailCode(kv, email, CodeOf(draws)))
  }

  const RedisFailureMessage := "Redis에서 이메일 코드가 정상적으로 삭제되지 않았습니다"
  const AuthenticationFailureMessage := "이메일 인증 과정에서 문제가 발생했습니다"

  /** `findEmailCode`: a failing store fails with the first message; an
      address with no code stored fails with the general one (the thrown
      `EmailAuthenticationFailedException` is caught and replaced); otherwise
      the answer is whether the typed code equals the stored one, a null code
      never does. */
  function FindEmailCodeOutcome(kv: Store, email: string, code: Option<string>, storeFails: bool)
    : (r: Result<bool>)
    ensures r == Failure(InvalidEmailCode(RedisFailureMessage)) <==> storeFails
    ensures r == Failure(InvalidEmailCode(AuthenticationFailureMessage)) <==> !storeFails && EmailCodeOf(kv, email).None?
    ensures r.Success? <==> !storeFails && EmailCodeOf(kv, email).Some?
    ensures r == Success(true) <==> !storeFails && code.Some? && EmailCodeOf(kv, email) == code
  {
    if storeFails then Failure(InvalidEmailCode(RedisFailureMessage))
    else
      var stored := EmailCodeOf(kv, email);
      if stored.None? then Failure(InvalidEmailCode(AuthenticationFailureMessage))
      else Success(code == Some(stored.value))
  }

  /** The code just sent verifies, and no other typed code does. */
  lemma SentCodeVerifies(kv: Store, email: string, draws: seq<Draw>, typed: Option<string>)
    requires |draws| == CodeLength && forall i :: 0 <= i < |draws| ==> InRange(draws[i])
    ensures var sent := SendOutcome(kv, email, draws, true);
      FindEmailCodeOutcome(sent.1, email, typed, false) == Success(typed == Some(sent.0.value))
  {
  }

  /** A refused message leaves any earlier code of that address in force. */
  lemma RefusedMailKeepsCode(kv: Store, email: string, draws: seq<Draw>, typed: Option<string>)
    requires |draws| == CodeLength && forall i :: 0 <= i < |draws| ==> InRange(draws[i])
    ensures var sent := SendOutcome(kv, email, draws, false);
      FindEmailCodeOutcome(sent.1, email, typed, false) == FindEmailCodeOutcome(kv, email, typed, false)
  {
  }

  /** The mail service over the shared store. */
  class EmailService {
    const redis: RedisService

    constructor (redis: RedisService)
      ensures this.redis == redis
    {
      this.redis := redis;
    }

    /** `sendSimpleMessage`: the code is created first, stored only once the
        message went out. */
    method SendSimpleMessage(email: string, draws: seq<Draw>, delivered: bool) returns (r: Result<string>)
      requires |draws| == CodeLength && forall i :: 0 <= i < |draws| ==> InRange(draws[i])
      modifies redis
      ensures (r, redis.store) == SendOutcome(old(redis.store), email, draws, delivered)
    {
      var number := CreateNumber(draws);
      if !delivered {
        return Failure(EmailSend);
      }
      redis.SaveEmailCode(email, number);
      return Success(number);
    }

    /** `findEmailCode`, reading the shared store. */
    function FindEmailCode(email: string, code: Option<string>, storeFails: bool): (r: Result<bool>)
      reads redis
      ensures r == Success(true) <==> !storeFails && code.Some? && redis.GetEmailCode(email) == code
      ensures r.Failure? ==> r.error.InvalidEmailCode?
    {
      FindEmailCodeOutcome(redis.store, email, code, storeFails)
    }
  }
}
