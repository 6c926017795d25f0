# RustyRockets core, modelled in Dafny

RustyRockets is a small Rocket web service. This project models the parts of it that have logic of their own and proves what they promise:

- **The hero repository** (`Heroes`). `add_hero` takes the value of the id counter `HeroCount` as the new hero's id, bumps the counter and stores the hero under that id. It answers with the hero and the location `/api/heroes/<id>`. `get_hero` looks an id up and gives a 404 when it is absent. `get_all` lists every stored hero. `HeroStore` is a class whose fields are the table (`map<nat, Hero>`) and the counter, which starts at 1. Its invariant `Consistent` says three things: the counter is at least 1, each key is its hero's id and lies in `1 .. nextId - 1`, and every id in that range is stored. That ids are never handed out twice follows from `AddHero`, which takes a free id and bumps the counter.
- **The GET/POST counter fairing** (`CounterFairing`). `Counter` is a class with the two counters. `OnRequest` bumps the counter of a GET or a POST and ignores every other method. `Counts` is the `/api/counts` report `Get: <g>\nPost: <p>`. The model proves that the report can be parsed back into the two counts, and that any run of requests adds exactly the number of GETs and POSTs in it.
- **The `ApiKey` request guard** (`ApiKeyGuard`). It reads the first `x-api-key` header. With no header it fails with 401 `MissingKey`. With a header that is not base64 it fails with 401 `InvalidKey`. With base64 it succeeds with the decoded text, and it compares that key with no secret. `str::from_utf8(..).unwrap()` panics on octets that are not UTF-8; the model makes that panic an outcome of its own, `Panicked`. Two supporting modules carry the encodings:
  - `Base64` is section 4 of RFC 4648. It is canonical: padding is required and unused bits must be zero (section 3.5 of RFC 4648).
  - `Utf8` is RFC 3629: shortest forms only, no surrogates.

  Both are proved to be bijections onto their valid inputs. So the guard accepts a request exactly when its header is the base64 of the UTF-8 bytes of some key, and it then hands on that key.
- **The other handlers** (`Routes`). These are the greetings, the `login`/`session` cookie pair over a cookie jar given as a map, and the `/protected` route behind the guard. `Http` holds the vocabulary they share: methods, statuses, and header lists with Rocket's case-insensitive, first-value `get_one`. `Decimal` is the `{}` formatting of an unsigned integer and its inverse.

## Model

| member | source | states |
|---|---|---|
| Heroes.InsertNext | src/main.rs:120-131 | inserting under the counter's value never overwrites a stored hero and keeps the repository invariant with the counter one larger |
| Heroes.SizeOfConsistent | src/main.rs:225-226 | a consistent table holds exactly `nextId - 1` heroes: one per id handed out since the counter started at 1 |
| Heroes.Location | src/main.rs:135 | the location of a new hero starts with `/api/heroes/` |
| Heroes.LocationNamesId | src/main.rs:135-136 | the id can be read back from the location's tail |
| Heroes.LocationInjective | src/main.rs:135-136 | different heroes get different locations |
| Heroes.ListedContents | src/main.rs:147-150 | a listing holds exactly the stored heroes, each once, ordered by id, and as many as there are ids |
| Heroes.HeroStore.constructor | src/main.rs:225-226 | the table starts empty and the counter at 1 |
| Heroes.HeroStore.AddHero | src/main.rs:113-137 | the hero's id is the counter's old value; the counter goes up by one; name and `canFly` come from the input; the hero is stored under its id, which was free; every other entry stays; the table grows by one; the location names the id; `get_hero` on the new id gives the hero back; the invariant is kept |
| Heroes.HeroStore.GetHero | src/main.rs:140-144 | `Some` exactly for a stored id, with that hero, whose id is the one asked for; `None` (404) for every id the counter has not handed out |
| Heroes.HeroStore.GetAll | src/main.rs:146-150 | exactly the stored heroes, each once, as many as the table holds |
| CounterFairing.RunCounts | src/main.rs:194-200 | after any run of requests, `get` has grown by the number of GETs, `post` by the number of POSTs, and by nothing else |
| CounterFairing.RunOrderIrrelevant | src/main.rs:194-200 | the counts do not depend on the order of the requests |
| CounterFairing.Report | src/main.rs:188 | the report starts with `Get: ` |
| CounterFairing.ParseReportOfReport | src/main.rs:188 | both counts can be read back from the report |
| CounterFairing.ReportOfParseReport | src/main.rs:188 | the reader accepts nothing but reports: whatever it reads back is the exact text `Get: g\nPost: p` of what it returns |
| CounterFairing.ReportInjective | src/main.rs:188 | different counts give different reports |
| CounterFairing.Counter.constructor | src/main.rs:168-172 | `Counter::default()` starts both counters at zero |
| CounterFairing.Counter.OnRequest | src/main.rs:194-200 | a GET bumps `get` only, a POST bumps `post` only, any other method changes nothing |
| CounterFairing.Counter.Counts | src/main.rs:184-189 | the `counts` route's text reads back as the current counts |
| Decimal.NatToString | src/main.rs:188 | `{}` prints a non-empty run of digits with no leading zero |
| Decimal.ParseNat | src/main.rs:188 | accepts exactly the non-empty digit strings without a leading zero |
| Decimal.ParseNatToString | src/main.rs:188 | a printed number reads back as itself |
| Decimal.NatToStringOfParseNat | src/main.rs:188 | every accepted digit string is the printing of its value |
| Decimal.NatToStringInjective | src/main.rs:188 | different numbers print differently |
| ApiKeyGuard.FromRequest | src/api_key.rs:23-34 | never forwards; every failure is 401; `MissingKey` exactly when there is no `x-api-key` header; success only with a header |
| ApiKeyGuard.MissingKeyRefused | src/api_key.rs:32 | a request without the header fails with 401 `MissingKey` |
| ApiKeyGuard.InvalidKeyIffNotBase64 | src/api_key.rs:30 | 401 `InvalidKey` exactly when the first header's value is not base64 |
| ApiKeyGuard.PanicIffNotUtf8 | src/api_key.rs:29 | the guard panics exactly when the header is base64 of octets that are not UTF-8 |
| ApiKeyGuard.SuccessIffEncodedKey | src/api_key.rs:27-29 | success with key `k` exactly when the header is the base64 of the UTF-8 of `k`; no comparison with a secret |
| ApiKeyGuard.FirstHeaderDecides | src/api_key.rs:25 | further `x-api-key` headers after the first do not change the outcome |
| ApiKeyGuard.NoKeyIsMissing | src/tests.rs:32-37 | no headers: 401 `MissingKey` |
| ApiKeyGuard.TruncatedKeyIsInvalid | src/tests.rs:39-46 | `c2VjcmV`: 401 `InvalidKey` |
| ApiKeyGuard.EncodedSecretAccepted | src/tests.rs:48-55 | the base64 of `secret` succeeds with key `secret` |
| Http.Code | src/api_key.rs:30 | the numeric codes of the statuses the routes produce (`Unauthorized` is 401); only `Ok` and `Created` are 2xx |
| Http.GetOne | src/api_key.rs:25 | `None` exactly when no header has the name (compared without regard to ASCII case); otherwise the value of the first such header |
| Http.GetOneFirstOnly | src/api_key.rs:25 | appending headers never changes the found value |
| Http.GetOneIgnoresCase | src/api_key.rs:25 | `X-Api-Key` is found as `x-api-key` |
| Base64.Encode | src/main.rs:69 | the encoding's length is a multiple of four |
| Base64.Decode | src/api_key.rs:27 | only text whose length is a multiple of four decodes |
| Base64.ToSextets | src/api_key.rs:27 | never leaves a lone 6-bit group |
| Base64.FromSextetsOfToSextets | src/api_key.rs:27 | splitting octets into 6-bit groups and reassembling them gives the octets back |
| Base64.ToSextetsOfFromSextets | src/api_key.rs:27 | whatever groups reassemble are exactly the split of the result |
| Base64.FromSextetsTailBits | src/api_key.rs:27 | a final partial group is accepted only with its unused bits zero |
| Base64.SextetsPointwise | src/api_key.rs:27 | text reads as 6-bit groups exactly when every character is in the alphabet, one group per character |
| Base64.SextetsOfChars | src/api_key.rs:27 | groups written as characters read back as themselves |
| Base64.CharsOfSextets | src/api_key.rs:27 | characters that read as groups are the writing of those groups and contain no `=` |
| Base64.PadCountOfPadded | src/api_key.rs:27 | padding is counted back exactly after `=`-free text |
| Base64.DecodeEncode | src/tests.rs:52 | decoding an encoding gives back the octets |
| Base64.EncodeDecode | src/api_key.rs:27 | whatever decodes is exactly the encoding of its result |
| Base64.DecodeInjective | src/api_key.rs:27 | two texts that decode to the same octets are the same text |
| Base64.TruncatedSecretRejected | src/tests.rs:43 | `c2VjcmV` does not decode |
| Base64.NonCanonicalPaddingRejected | src/api_key.rs:30 | `c2VjcmV=` does not decode either: its last character leaves non-zero bits over |
| Utf8.DecodeChar | src/api_key.rs:29 | an accepted sequence of `w` octets carries a code point that needs `w` octets, so there are no overlong forms |
| Utf8.Decode | src/api_key.rs:29 | `str::from_utf8`: a decoded text has between a quarter of the octets' length and that length, one to four octets per character (round trips below) |
| Utf8.Encode | src/tests.rs:52 | the UTF-8 octets of a `&str` that `base64::encode` is given: one to four octets per character |
| Utf8.DecodeEncode | src/api_key.rs:29 | every string's UTF-8 is valid and decodes back to it |
| Utf8.EncodeDecode | src/api_key.rs:29 | valid UTF-8 is exactly the encoding of what it decodes to |
| Utf8.DecodeInjective | src/api_key.rs:29 | two octet strings that decode to the same text are the same |
| Utf8.MalformedRejected | src/api_key.rs:29 | a lone continuation octet, or a leading octet cut short, is rejected |
| Utf8.OverlongRejected | src/api_key.rs:29 | the overlong `C0 AF` is rejected |
| Routes.Greeting | src/main.rs:33-36 | `Hello ` followed by the name |
| Routes.QueryGreeting | src/main.rs:44-50 | the salutation, or `Hello` when none is given, then a space, then the name |
| Routes.QueryGreetingDefault | src/main.rs:48 | no salutation is the same as `Hello`, and the same as `/<name>` |
| Routes.QueryGreetingInjective | src/main.rs:45-49 | with the same salutation, different names give different greetings |
| Routes.GreetingExamples | src/tests.rs:11-30 | `Hello rainer`, `Hello rainer`, `Hi rainer` |
| Routes.Login | src/main.rs:67-70 | adds the `Session` cookie with the base64 of `this_is_a_session_key` and keeps every other cookie |
| Routes.Session | src/main.rs:72-78 | "You got the cookie!" exactly when a `Session` cookie is present, "Sorry, no cookie!" exactly when it is not |
| Routes.SessionAfterLogin | src/main.rs:72-78 | after `login`, `session` finds the cookie |
| Routes.SessionKeyDecodes | src/main.rs:69 | the session cookie decodes back to `this_is_a_session_key` |
| Routes.ProtectedMessage | src/main.rs:59 | the message quotes the key between the fixed text and a closing `'` |
| Routes.Protected | src/main.rs:57-60 | 200 exactly when the guard succeeds, 401 exactly when it fails, 500 on its panic, nothing else (codes 200, 401, 500) |
| Routes.ProtectedOkIff | src/main.rs:57-60 | 200 with the key quoted exactly when the header is the base64 of that key's UTF-8 |
| Routes.ProtectedWithoutKey | src/tests.rs:32-37 | without a key: 401 |
| Routes.ProtectedWithInvalidKey | src/tests.rs:39-46 | with `c2VjcmV`: 401 |
| Routes.ProtectedWithKey | src/tests.rs:48-55 | with the base64 of `secret`: 200 |

## Left out

- Rocket itself is not modelled: route mounting and matching, `#[launch]`, the fairing's `info` and `on_ignite` registration, the `Created`/`Json` responders, the `uri!` macro (only the shape of its result, `Location`, is modelled) and the HTML of the 404 catcher.
- Serde (de)serialisation of `Hero`/`NewHero`, including the `canFly` renaming, is a foreign library and is not modelled. `NewHero` is given already parsed.
- Concurrency is not modelled: the `RwLock`, the `Arc`s and the `AtomicUsize` counters with `Ordering::Relaxed` are plain fields updated one request at a time. Concurrent `add_hero` calls can insert in a different order from the one in which they took their ids. The model does not cover that interleaving, and the density part of `Consistent` (every handed-out id is stored) relies on it.
- Heroes.HeroStore.AddHero: ids are unbounded, so the wrap-around of `fetch_add` on a `usize` after 2^64 heroes is not modelled.
- CounterFairing.Counter.OnRequest: the counters are unbounded, so the `usize` wrap-around of `fetch_add` is not modelled.
- Heroes.HeroStore.GetAll: `HashMap::values` has no defined order. The model lists heroes by id, and only the order-free facts (which heroes, each once, how many) reflect what the source promises.
- Base64.Decode: the `base64` crate's own code is not modelled. The model decodes by section 4 of RFC 4648 in its canonical form. Padding is required, and unused bits must be zero. Whatever leniency the crate has beyond that, such as accepting unpadded text, is not reproduced.
- Routes.Protected: a panic inside the guard is taken to become a 500 response. How Rocket turns a panic into a response is not part of this model.
- Cookies are a map from name to value. Cookie attributes (path, expiry, `HttpOnly`) and the trip through the browser are not modelled.
- `hello_world` is the constant `Routes.HelloWorld`. It has no contract of its own.
- `reqwest` is imported but never used, so there is nothing to model.
- The guard's `Forward` outcome exists in the datatype because Rocket's outcome has it, but this guard never produces it.
