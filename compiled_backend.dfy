// The compiled JavaScript twin of the backend (Backend/dist/index.js). Its
// `isPrime` and `/prime/:number` handler are the TypeScript ones with the
// type annotations erased and one `console.log("hello")` added; here they are
// written out as the statements the compiled file executes and proved to
// give the same answers as the model of the TypeScript source.
module CompiledBackend {
  import opened JsNumber
  import opened Primality
  import opened PrimeApi

  /** `isPrime` of the compiled file: the same early returns and the same
      6k±1 loop, so it decides exactly the primes. */
  method IsPrime(num: int) returns (r: bool)
    ensures r == Prime(num)
  {
    if num <= 1 {
      EdgeCases(num);
      return false;
    }
    if num <= 3 {
      EdgeCases(num);
      return true;
    }
    if num % 2 == 0 || num % 3 == 0 {
      EdgeCases(num);
      return false;
    }
    var i := 5;
    while i * i <= num
      invariant i >= 5 && i % 6 == 5
      invariant forall d :: 2 <= d < i ==> !Divides(d, num)
      decreases num - i * i
    {
      if num % i == 0 || num % (i + 2) == 0 {
        FoundDivisor(num, i);
        return false;
      }
      StepKeepsNoDivisor(num, i);
      StepShrinksMeasure(i);
      i := i + 6;
    }
    NoSmallDivisorMeansPrime(num, i);
    return true;
  }

  /** The compiled `/prime/:number` handler, run step by step with the
      compiled `isPrime`: it answers every parameter exactly as the
      TypeScript handler does. */
  method HandlePrime(param: string) returns (r: Response)
    ensures r == PrimeRoute(param)
  {
    var number := ParseInt(param);
    if number.NaN? {
      r := Response(400, ErrorBody(ErrorResponse(
        "Invalid input. Please provide a valid number.", None, Some("/prime/17"), None)));
      return;
    }
    if number.value > 9007199254740991 {
      r := Response(400, ErrorBody(ErrorResponse(
        "Number too large. Please provide a smaller number.", None, None, Some(9007199254740991))));
      return;
    }
    var result := IsPrime(number.value);
    var message := IntegerToString(number.value) + " is " + (if result then "" else "not ") + "a prime number";
    r := Response(200, PrimeBody(PrimeResponse(number.value, result, message)));
  }
}
