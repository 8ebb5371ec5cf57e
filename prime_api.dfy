// The `/prime/:number` endpoint and the health endpoint of the backend
// (Backend/src/index.ts), as pure functions from the route parameter to the
// status code and JSON body the handler sends. Express, JSON encoding and
// the socket are outside the model.
module PrimeApi {
  import opened JsNumber
  import opened Primality

  datatype Option<T> = None | Some(value: T)

  /** The success body (interface PrimeResponse). */
  datatype PrimeResponse = PrimeResponse(number: int, isPrime: bool, message: string)

  /** The error body (interface ErrorResponse); `None` is a field the JSON
      object leaves out. */
  datatype ErrorResponse = ErrorResponse(
    error: string,
    message: Option<string>,
    example: Option<string>,
    maxSafeInteger: Option<int>)

  /** The body of `GET /` (interface HealthCheckResponse). */
  datatype HealthCheckResponse = HealthCheckResponse(message: string, usage: string, example: string)

  datatype Body =
    | PrimeBody(prime: PrimeResponse)
    | ErrorBody(err: ErrorResponse)
    | HealthBody(health: HealthCheckResponse)

  /** What the handler hands to `res.status(...).json(...)`. */
  datatype Response = Response(status: int, body: Body)

  /** `Number.MAX_SAFE_INTEGER`, 2^53 - 1. */
  const MaxSafeInteger: int := 9007199254740991

  const InvalidInputError: string := "Invalid input. Please provide a valid number."
  const TooLargeError: string := "Number too large. Please provide a smaller number."
  const ExamplePath: string := "/prime/17"

  const InvalidInputResponse: Response :=
    Response(400, ErrorBody(ErrorResponse(InvalidInputError, None, Some(ExamplePath), None)))
  const TooLargeResponse: Response :=
    Response(400, ErrorBody(ErrorResponse(TooLargeError, None, None, Some(MaxSafeInteger))))

  /** The template `${number} is ${result ? '' : 'not '}a prime number`.
      The message begins with the number's text; VerdictNamesNumber,
      VerdictSaysNotExactlyWhenComposite and VerdictUnambiguous below say
      what the whole message conveys. */
  function Verdict(n: int, isPrime: bool): (r: string)
    ensures |IntegerToString(n)| < |r| && r[..|IntegerToString(n)|] == IntegerToString(n)
  {
    IntegerToString(n) + " is " + (if isPrime then "" else "not ") + "a prime number"
  }

  /** The handler of `GET /prime/:number` for the route parameter `param`:
      NaN is refused, then anything above MAX_SAFE_INTEGER, and every other
      value (negative ones included) is answered with the oracle's verdict.
      The status is 200 or 400; only 200 carries a PrimeResponse and only
      400 an ErrorResponse. */
  function PrimeRoute(param: string): (r: Response)
    ensures r.status == 200 || r.status == 400
    ensures r.status == 200 <==> r.body.PrimeBody?
    ensures r.status == 400 <==> r.body.ErrorBody?
  {
    match ParseInt(param)
    case NaN => InvalidInputResponse
    case Num(n) =>
      if n > MaxSafeInteger then TooLargeResponse
      else
        var result := Prime(n);
        Response(200, PrimeBody(PrimeResponse(n, result, Verdict(n, result))))
  }

  /** The handler of `GET /`: a 200 answer describing the service, whose
      example is the path of a prime-number request. */
  function HealthRoute(): (r: Response)
    ensures r.status == 200 && r.body.HealthBody?
    ensures r.body.health.example == ExamplePath
  {
    Response(200, HealthBody(HealthCheckResponse("Prime Number Checker API", "GET /prime/{number}", ExamplePath)))
  }

  /** `s` occurs in `w` as a contiguous piece. */
  predicate Contains(s: string, w: string)
    decreases |s|
  {
    |w| <= |s| && (s[..|w|] == w || Contains(s[1..], w))
  }

  // ---- The three outcomes of the handler ----

  /** A parameter that `parseInt` reads as NaN, and only such a parameter,
      gets 400 with the "invalid input" error, the "/prime/17" example and no
      other field. */
  lemma RejectsUnparseable(param: string)
    ensures ParseInt(param).NaN? <==> PrimeRoute(param) == InvalidInputResponse
  {
  }

  /** A parsed value above MAX_SAFE_INTEGER, and only such a value, gets 400
      with the "too large" error and `maxSafeInteger`. */
  lemma RejectsTooLarge(param: string)
    ensures (ParseInt(param).Num? && ParseInt(param).value > MaxSafeInteger)
            <==> PrimeRoute(param) == TooLargeResponse
  {
  }

  /** Every parsed value up to MAX_SAFE_INTEGER is answered with 200: the
      body echoes the value, `isPrime` is the oracle's answer for it, and the
      message names the number (`parseInt` reads it back) and contains "not "
      exactly when the number is not prime. */
  lemma AnswersSafeNumbers(param: string)
    ensures PrimeRoute(param).status == 200
            <==> ParseInt(param).Num? && ParseInt(param).value <= MaxSafeInteger
    ensures PrimeRoute(param).status == 200 ==>
              var p := PrimeRoute(param).body.prime;
              p.number == ParseInt(param).value
              && p.isPrime == Prime(p.number)
              && ParseInt(p.message) == Num(p.number)
              && (Contains(p.message, "not ") <==> !p.isPrime)
  {
    if ParseInt(param).Num? && ParseInt(param).value <= MaxSafeInteger {
      var n := ParseInt(param).value;
      VerdictNamesNumber(n, Prime(n));
      VerdictSaysNotExactlyWhenComposite(n, Prime(n));
    }
  }

  /** There is no lower bound: a negative number is answered, and it is not
      prime. */
  lemma NegativeNeverRejected(param: string)
    requires ParseInt(param).Num? && ParseInt(param).value < 0
    ensures PrimeRoute(param).status == 200 && !PrimeRoute(param).body.prime.isPrime
  {
    EdgeCases(ParseInt(param).value);
  }

  // ---- The message ----

  /** `parseInt` applied to the message gives back the number. */
  lemma VerdictNamesNumber(n: int, isPrime: bool)
    ensures ParseInt(Verdict(n, isPrime)) == Num(n)
  {
    var rest := " is " + (if isPrime then "" else "not ") + "a prime number";
    assert Verdict(n, isPrime) == IntegerToString(n) + rest;
    assert rest[0] == ' ';
    ParseIntegerToString(n, rest);
  }

  /** "not " occurs in the message exactly when the verdict is "not prime". */
  lemma VerdictSaysNotExactlyWhenComposite(n: int, isPrime: bool)
    ensures Contains(Verdict(n, isPrime), "not ") <==> !isPrime
  {
    var num := IntegerToString(n);
    forall i | 0 <= i < |num|
      ensures num[i] != 'n'
    {
      assert i == 0 || '0' <= num[i] <= '9';
    }
    if isPrime {
      var tail := " is a prime number";
      assert Verdict(n, isPrime) == num + tail;
      ContainsSkipsPrefix(num, tail, "not ");
      TailHasNoNot();
    } else {
      assert Verdict(n, isPrime) == (num + " is ") + "not " + "a prime number";
      ContainsInfix(num + " is ", "not ", "a prime number");
    }
  }

  /** The message tells apart every pair of (number, verdict). */
  lemma VerdictUnambiguous(n1: int, p1: bool, n2: int, p2: bool)
    requires Verdict(n1, p1) == Verdict(n2, p2)
    ensures n1 == n2 && p1 == p2
  {
    VerdictNamesNumber(n1, p1);
    VerdictNamesNumber(n2, p2);
    VerdictSaysNotExactlyWhenComposite(n1, p1);
    VerdictSaysNotExactlyWhenComposite(n2, p2);
  }

  lemma {:induction false} ContainsInfix(a: string, w: string, c: string)
    ensures Contains(a + w + c, w)
  {
    if a == [] {
      assert (a + w + c)[..|w|] == w;
    } else {
      assert (a + w + c)[1..] == a[1..] + w + c;
      ContainsInfix(a[1..], w, c);
    }
  }

  lemma {:induction false} ContainsSkipsPrefix(a: string, b: string, w: string)
    requires w != []
    requires forall i :: 0 <= i < |a| ==> a[i] != w[0]
    ensures Contains(a + b, w) <==> Contains(b, w)
  {
    if a == [] {
      assert a + b == b;
    } else {
      assert (a + b)[1..] == a[1..] + b;
      assert (a + b)[0] != w[0];
      ContainsSkipsPrefix(a[1..], b, w);
    }
  }

  lemma {:induction false} NoFirstLetterNoContains(s: string, w: string)
    requires w != []
    requires forall i :: 0 <= i < |s| ==> s[i] != w[0]
    ensures !Contains(s, w)
  {
    if s != [] {
      if |w| <= |s| {
        assert s[..|w|][0] != w[0];
      }
      NoFirstLetterNoContains(s[1..], w);
    }
  }

  lemma TailHasNoNot()
    ensures !Contains(" is a prime number", "not ")
  {
    var tail := " is a prime number";
    var a, b := tail[..12], tail[12..];
    assert tail == a + b;
    assert a == " is a prime ";
    ContainsSkipsPrefix(a, b, "not ");
    NumberHasNoNot();
  }

  lemma NumberHasNoNot()
    ensures !Contains("number", "not ")
  {
    var b := "number";
    assert b[..4][1] == 'u';
    assert b[1..] == "umber";
    NoFirstLetterNoContains(b[1..], "not ");
  }

  /** The text of any integer above MAX_SAFE_INTEGER, such as
      "99999999999999999999", is refused with the "too large" error when
      nothing or any non-digit follows it ('x' included: the numeral does not
      start with "0"). */
  lemma RejectsTextOfLargeInteger(n: int, rest: string)
    requires n > MaxSafeInteger
    requires rest == [] || DigitValue(rest[0]) >= 10
    ensures PrimeRoute(IntegerToString(n) + rest) == TooLargeResponse
  {
    ParsePositiveIntegerText(n, rest);
  }

  /** The text of any integer up to MAX_SAFE_INTEGER, followed by nothing or
      by text starting with a non-digit other than 'x'/'X' ("17abc", "17.5"),
      is answered for that integer. ("0x" is not: it reads as NaN.) */
  lemma AnswersTextOfSafeInteger(n: int, rest: string)
    requires n <= MaxSafeInteger
    requires rest == [] || (DigitValue(rest[0]) >= 10 && rest[0] != 'x' && rest[0] != 'X')
    ensures PrimeRoute(IntegerToString(n) + rest).status == 200
    ensures PrimeRoute(IntegerToString(n) + rest).body.prime.number == n
  {
    ParseIntegerToString(n, rest);
  }

  // ---- Scenarios ----

  /** `GET /prime/17` answers 200, 17, prime, "17 is a prime number". */
  lemma RequestSeventeen()
    ensures PrimeRoute("17") == Response(200, PrimeBody(PrimeResponse(17, true, "17 is a prime number")))
  {
    ReadsSeventeen();
    SeventeenIsPrime();
    VerdictOfSeventeen();
  }

  lemma ReadsSeventeen()
    ensures ParseInt("17") == Num(17)
  {
    TextOfSeventeen();
    ReadsAs("17", 17, []);
  }

  lemma VerdictOfSeventeen()
    ensures Verdict(17, true) == "17 is a prime number"
  {
    TextOfSeventeen();
  }

  lemma SeventeenIsPrime()
    ensures Prime(17)
  {
    forall d | 2 <= d < 5
      ensures !Divides(d, 17)
    {
      assert d == 2 || d == 3 || d == 4;
    }
    NoSmallDivisorMeansPrime(17, 5);
  }

  /** `GET /prime/18` answers 200, 18, not prime, "18 is not a prime number". */
  lemma RequestEighteen()
    ensures PrimeRoute("18") == Response(200, PrimeBody(PrimeResponse(18, false, "18 is not a prime number")))
  {
    ReadsEighteen();
    EighteenIsComposite();
    VerdictOfEighteen();
  }

  lemma EighteenIsComposite()
    ensures !Prime(18)
  {
    assert Divides(2, 18);
  }

  lemma ReadsEighteen()
    ensures ParseInt("18") == Num(18)
  {
    assert IntegerToString(18) == "18";
    ReadsAs("18", 18, []);
  }

  lemma VerdictOfEighteen()
    ensures Verdict(18, false) == "18 is not a prime number"
  {
    assert IntegerToString(18) == "18";
  }

  /** `GET /prime/abc` answers 400 with the "invalid input" error. */
  lemma RequestLetters()
    ensures PrimeRoute("abc") == InvalidInputResponse
  {
    LettersAreNaN();
  }

  /** `GET /` advertises the prime route, and the example path it gives is
      itself answered with 200. */
  lemma HealthAdvertisesWorkingExample()
    ensures HealthRoute().body.health.usage == "GET /prime/{number}"
    ensures ExamplePath == HealthRoute().body.health.example
    ensures ExamplePath[..7] == "/prime/" && PrimeRoute(ExamplePath[7..]).status == 200
  {
    assert ExamplePath[7..] == "17";
    ReadsSeventeen();
    AnswersSafeNumbers(ExamplePath[7..]);
  }
}
