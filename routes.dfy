/**
 * The request handlers mounted under `/api` that compute their answer from
 * the request alone: the greetings, the login/session cookie pair, and the
 * route protected by the `ApiKey` guard.
 */
module Routes {
  import opened Wrappers
  import opened Http
  import Base64
  import Utf8
  import ApiKeyGuard

  /** `GET /`. */
  const HelloWorld := "Hello, world!"

  /** `GET /<name>`. */
  function Greeting(name: string): (r: string)
    ensures |r| == 6 + |name| && r[..6] == "Hello " && r[6..] == name
  {
    "Hello " + name
  }

  /**
   * `GET /hello?<name>&<salutation>`: the salutation, a space and the name;
   * without a salutation it greets with "Hello".
   */
  function QueryGreeting(name: string, salutation: Option<string>): (r: string)
    ensures var s := if salutation.Some? then salutation.value else "Hello";
            |r| == |s| + 1 + |name| && r[..|s|] == s && r[|s|] == ' ' && r[|s| + 1..] == name
  {
    match salutation
    case Some(s) => s + " " + name
    case None => "Hello " + name
  }

  /** Leaving the salutation out is the same as asking for "Hello", and the same as `/<name>`. */
  lemma QueryGreetingDefault(name: string)
    ensures QueryGreeting(name, None) == QueryGreeting(name, Some("Hello")) == Greeting(name)
  {
  }

  /** Different names get different greetings, whatever the salutation. */
  lemma QueryGreetingInjective(a: string, b: string, salutation: Option<string>)
    requires QueryGreeting(a, salutation) == QueryGreeting(b, salutation)
    ensures a == b
  {
    var s := if salutation.Some? then salutation.value else "Hello";
    assert a == QueryGreeting(a, salutation)[|s| + 1..];
  }

  lemma GreetingExamples()
    ensures Greeting("rainer") == "Hello rainer"
    ensures QueryGreeting("rainer", None) == "Hello rainer"
    ensures QueryGreeting("rainer", Some("Hi")) == "Hi rainer"
  {
  }

  // ---------------------------------------------------------------------------
  // Cookies

  /** The browser's cookies for the site, by name. */
  type CookieJar = map<string, string>

  const SessionKeyText := "this_is_a_session_key"

  /** The value `login` stores: `base64::encode("this_is_a_session_key")`. */
  function SessionKey(): string
  {
    Base64.Encode(Utf8.Encode(SessionKeyText))
  }

  /** `GET /login`: adds the `Session` cookie and keeps every other cookie. */
  function Login(jar: CookieJar): (r: CookieJar)
    ensures "Session" in r && r["Session"] == SessionKey()
    ensures forall n :: n in jar && n != "Session" ==> n in r && r[n] == jar[n]
    ensures forall n :: n in r ==> n in jar || n == "Session"
  {
    jar["Session" := SessionKey()]
  }

  /** `GET /session`: whether a `Session` cookie came with the request. */
  function Session(jar: CookieJar): (r: string)
    ensures r == "You got the cookie!" <==> "Session" in jar
    ensures r == "Sorry, no cookie!" <==> "Session" !in jar
  {
    if "Session" in jar then "You got the cookie!" else "Sorry, no cookie!"
  }

  /** After logging in, the session route finds the cookie. */
  lemma SessionAfterLogin(jar: CookieJar)
    ensures Session(Login(jar)) == "You got the cookie!"
  {
  }

  /** The session cookie is base64 text that decodes back to the session key. */
  lemma SessionKeyDecodes()
    ensures Base64.Decode(SessionKey()) == Some(Utf8.Encode(SessionKeyText))
    ensures Utf8.Decode(Base64.Decode(SessionKey()).value) == Some(SessionKeyText)
  {
    Base64.DecodeEncode(Utf8.Encode(SessionKeyText));
    Utf8.DecodeEncode(SessionKeyText);
  }

  // ---------------------------------------------------------------------------
  // The protected route

  /** A response: its status and, when a handler wrote it, its body (`None` for the framework's own pages). */
  datatype Response = Response(status: Status, body: Option<string>)

  const ProtectedPrefix := "You are allowed to access this API because you presented key '"

  /** The body of `GET /protected` once the guard has let the request through. */
  function ProtectedMessage(key: ApiKeyGuard.ApiKey): (r: string)
    ensures |r| == |ProtectedPrefix| + |key.value| + 1
    ensures r[..|ProtectedPrefix|] == ProtectedPrefix && r[|ProtectedPrefix|..|r| - 1] == key.value && r[|r| - 1] == '\''
  {
    ProtectedPrefix + key.value + "'"
  }

  /**
   * `GET /protected`: the guard runs first. A refused request gets the
   * guard's status; a panic in the guard becomes a 500.
   */
  function Protected(headers: seq<Header>): (r: Response)
    ensures r.status == Ok || r.status == Unauthorized || r.status == InternalServerError
    ensures Code(r.status) == 200 || Code(r.status) == 401 || Code(r.status) == 500
    ensures r.status == Ok <==> ApiKeyGuard.FromRequest(headers).Success?
    ensures r.status == Unauthorized <==> ApiKeyGuard.FromRequest(headers).Failure?
  {
    match ApiKeyGuard.FromRequest(headers)
    case Success(key) => Response(Ok, Some(ProtectedMessage(key)))
    case Failure(status, _) => Response(status, None)
    case Forward => Response(NotFound, None)
    case Panicked => Response(InternalServerError, None)
  }

  /** The route answers 200 exactly for a header that is the base64 of a UTF-8 key, and echoes that key. */
  lemma ProtectedOkIff(headers: seq<Header>, k: string)
    ensures Protected(headers) == Response(Ok, Some(ProtectedMessage(ApiKeyGuard.ApiKey(k)))) <==>
            GetOne(headers, ApiKeyGuard.KeyHeader) == Some(Base64.Encode(Utf8.Encode(k)))
  {
    ApiKeyGuard.SuccessIffEncodedKey(headers, k);
    var r := Protected(headers);
    if r == Response(Ok, Some(ProtectedMessage(ApiKeyGuard.ApiKey(k)))) {
      var o := ApiKeyGuard.FromRequest(headers);
      assert o.Success?;
      var m := ProtectedMessage(o.key);
      assert o.key.value == m[|ProtectedPrefix|..|m| - 1] == k;
    }
  }

  /** Without a key the route answers 401. */
  lemma ProtectedWithoutKey()
    ensures Protected([]).status == Unauthorized && Code(Protected([]).status) == 401
  {
  }

  /** With the key `c2VjcmV`, which is not base64, the route answers 401. */
  lemma ProtectedWithInvalidKey()
    ensures Protected([Header("x-api-key", "c2VjcmV")]).status == Unauthorized
  {
    ApiKeyGuard.TruncatedKeyIsInvalid();
  }

  /** With the base64 encoding of `secret` the route answers 200. */
  lemma ProtectedWithKey()
    ensures Protected([Header("x-api-key", Base64.Encode(Utf8.Encode("secret")))]).status == Ok
  {
    ApiKeyGuard.EncodedSecretAccepted();
  }
}
