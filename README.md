# Prime Number Checker API — verified model of the backend core

The backend is a small Express service with two routes:

- `GET /prime/:number` reads the path parameter with JavaScript's `parseInt`.
  - Text with no leading integer is rejected with 400 "Invalid input".
  - A value above `Number.MAX_SAFE_INTEGER` (2^53 - 1) is rejected with 400 "Number too large".
  - Any other integer, negative ones included, is answered with 200. The answer gives the number, whether it is prime according to the 6k±1 trial-division test `isPrime`, and the message "`<n>` is [not ]a prime number".
- `GET /` returns a static health description.

The project has four modules:

- `Primality` (`primality.dfy`) models `isPrime` as a method with its loop. It proves the method returns exactly the mathematical predicate `Prime(n)`: n >= 2 and no divisor in [2, n - 1]. It also proves why stopping at the square root and skipping candidates that are not 6k±1 is sound.
- `JsNumber` (`js_number.dfy`) models the two number conversions the handler relies on:
  - `parseInt` with no radix, as section 19.2.5 of ECMA-262 defines it: leading white space is skipped, an optional sign, `0x`/`0X` selects hexadecimal, the longest digit prefix is read, and NaN results when there are no digits.
  - The decimal text of an integer used in the template literal.

  It proves which texts `parseInt` reads as NaN: exactly those with no digit where the first digit is expected. It also proves the two conversions agree: the decimal text of `n` parses back to `n` when it is followed by nothing, or by text that starts with a non-digit other than `x`/`X`. (After the text "0", an `x` would form a hexadecimal prefix.)
- `PrimeApi` (`prime_api.dfy`) models the handler's decisions as a function from the parameter text to a status and body, plus the health route as a function of no arguments. It proves which parameters get which answer, and what the message says.
- `CompiledBackend` (`compiled_backend.dfy`) models the compiled twin `Backend/dist/index.js`, statement by statement. It proves that its `isPrime` and its handler give the same answers as the TypeScript model.
  - The compiled `isPrime` (Backend/dist/index.js:14-29) has the same statements as the TypeScript one (Backend/src/index.ts:32-46), with the type annotations removed. `CompiledBackend.IsPrime` is therefore the same method as `Primality.IsPrime`, kept as a model of the compiled file in its own right.

## Model

| member | source | states |
|---|---|---|
| Primality.IsPrime | Backend/src/index.ts:32-46 | returns true exactly when `num` is prime (n >= 2 with no divisor in [2, n - 1]), for every integer input |
| Primality.EdgeCases | Backend/src/index.ts:33-36 | the early returns are right: nothing at or below 1 is prime, 2 and 3 are, and above 3 a multiple of 2 or 3 is not |
| Primality.FoundDivisor | Backend/src/index.ts:39-42 | when the loop finds `num % i == 0` or `num % (i + 2) == 0` with i >= 5 and i * i <= num, the number is not prime |
| Primality.StepKeepsNoDivisor | Backend/src/index.ts:39-43 | one pass of the loop keeps "no divisor below i": for i ≡ 5 (mod 6), with 2 and 3 ruled out, testing i and i + 2 rules out every divisor below i + 6 |
| Primality.StepShrinksMeasure | Backend/src/index.ts:39 | the step `i += 6` strictly increases `i * i`, so the loop ends |
| Primality.NoSmallDivisorMeansPrime | Backend/src/index.ts:39-45 | once i * i > num and no divisor below i exists, num is prime, which justifies the final `return true` |
| Primality.PrimeIffNoDivisorUpToRoot | Backend/src/index.ts:38-45 | for n >= 2, n is prime if and only if no d with 2 <= d and d * d <= n divides it (trial division up to the square root decides primality) |
| JsNumber.TrimStart | Backend/src/index.ts:51 | `parseInt` drops exactly the leading white space: the result is a suffix, everything removed is white space, and what is left does not start with white space |
| JsNumber.DigitPrefix | Backend/src/index.ts:51 | `parseInt` reads the longest prefix of digits of the radix: a prefix, all digits, and maximal |
| JsNumber.ParseDigits | Backend/src/index.ts:51 | the text after the sign reads as NaN exactly when there is no digit where the first one is expected: the text is empty, or starts with a character that is not a decimal digit, or starts with `0x`/`0X` that is not followed by a hexadecimal digit; a value read is never negative |
| JsNumber.ParseSigned | Backend/src/index.ts:51 | after at most one `+` or `-`, the result is NaN exactly when the digits are missing as above, and a negative value comes only after a `-` |
| JsNumber.ParseInt | Backend/src/index.ts:51-54 | `parseInt(s)` is NaN (the route's "Invalid input" case) exactly when, after the leading white space and at most one sign, no digit follows as above; a negative value comes only from text whose first character after the white space is `-` |
| JsNumber.ParseDecimalDigits | Backend/src/index.ts:51 | any non-empty run of decimal digits followed by a non-digit (or nothing) reads as its radix-10 value, except the run "0" directly followed by `x`/`X` |
| JsNumber.ParseHexDigits | Backend/src/index.ts:51 | `0x` or `0X`, then any non-empty run of hexadecimal digits, then nothing or a character that is not a hexadecimal digit, reads as the run's radix-16 value |
| JsNumber.NatToDecimal | Backend/src/index.ts:78 | the decimal text of a natural number is non-empty, all digits, and has a leading `0` only for zero |
| JsNumber.IntegerToString | Backend/src/index.ts:78 | the text of an integer starts with `-` exactly when it is negative, and the rest is digits |
| JsNumber.DecimalRoundTrip | Backend/src/index.ts:78 | the digits written for n have the value n |
| JsNumber.DigitPrefixOfDigits | Backend/src/index.ts:51 | a digit run followed by a non-digit is read up to the non-digit and no further |
| JsNumber.ParseIntegerToString | Backend/src/index.ts:51 | round trip: `parseInt` of the text of any integer n, followed by nothing or by a non-digit other than `x`/`X`, is n |
| JsNumber.ParsePositiveIntegerText | Backend/src/index.ts:51 | `parseInt` of the text of any positive integer n, followed by nothing or by any non-digit (`x`/`X` included), is n |
| JsNumber.IntegerToStringInjective | Backend/src/index.ts:78 | distinct integers have distinct texts |
| JsNumber.LeadingWhiteSpaceIgnored | Backend/src/index.ts:51 | `parseInt` gives the same value with any leading white space prepended |
| JsNumber.SignApplies | Backend/src/index.ts:51 | when the text after the sign does not begin with white space or another sign, a leading `-` negates the parsed value (NaN stays NaN) and a leading `+` leaves it unchanged |
| JsNumber.ParseIntIgnoresLetters | Backend/src/index.ts:51 | "17abc" reads as 17: trailing non-digits are ignored |
| JsNumber.ParseIntTruncatesFraction | Backend/src/index.ts:51 | "17.9" reads as 17 and "-17.9" as -17: the fraction is dropped, towards zero on both sides |
| JsNumber.ParseIntIgnoresExponent | Backend/src/index.ts:51 | "1e3" reads as 1: exponent notation is not understood |
| JsNumber.ParseIntHexadecimal | Backend/src/index.ts:51 | "  -0x1A" reads as -26: white space, sign and hexadecimal prefix are honoured |
| JsNumber.ParseIntNaN | Backend/src/index.ts:51-54 | "abc", "0x", "-" and the empty text have no leading integer and read as NaN |
| PrimeApi.PrimeRoute | Backend/src/index.ts:49-90 | every parameter is answered with status 200 or 400; 200 always carries a prime-check body, and 400 always carries an error body |
| PrimeApi.RejectsUnparseable | Backend/src/index.ts:51-61 | the answer is 400 "Invalid input. Please provide a valid number." with example "/prime/17" if and only if `parseInt` gives NaN |
| PrimeApi.RejectsTooLarge | Backend/src/index.ts:63-71 | the answer is 400 "Number too large. Please provide a smaller number." with maxSafeInteger 9007199254740991 if and only if the parsed value exceeds 2^53 - 1 |
| PrimeApi.AnswersSafeNumbers | Backend/src/index.ts:73-81 | status 200 if and only if the parameter parses to an integer at most 2^53 - 1; the body then echoes that integer, `isPrime` is its primality, the message reads back as the number, and the message contains "not " exactly when the number is not prime |
| PrimeApi.NegativeNeverRejected | Backend/src/index.ts:63-73 | a negative parsed value is never rejected: it is answered with 200 and "not prime" |
| PrimeApi.Verdict | Backend/src/index.ts:78 | the message begins with the number's text; what the whole message conveys is stated by PrimeApi.VerdictNamesNumber, PrimeApi.VerdictSaysNotExactlyWhenComposite and PrimeApi.VerdictUnambiguous |
| PrimeApi.VerdictNamesNumber | Backend/src/index.ts:78 | the message starts with the number, in a form `parseInt` reads back as that number |
| PrimeApi.VerdictSaysNotExactlyWhenComposite | Backend/src/index.ts:78 | the message contains "not " if and only if the result is false |
| PrimeApi.VerdictUnambiguous | Backend/src/index.ts:75-79 | two equal messages come from the same number and the same result |
| PrimeApi.RejectsTextOfLargeInteger | Backend/src/index.ts:63-71 | the text of any integer above 2^53 - 1, followed by nothing or by any text starting with a non-digit (`x`/`X` included), gets the "Number too large" answer |
| PrimeApi.AnswersTextOfSafeInteger | Backend/src/index.ts:51-81 | the text of any integer at most 2^53 - 1, followed by nothing or by text starting with a non-digit other than `x`/`X`, gets 200 for that integer ("0x" does not: it reads as NaN) |
| PrimeApi.RequestSeventeen | Backend/src/index.ts:49-81 | `/prime/17` answers 200 with {17, true, "17 is a prime number"} |
| PrimeApi.RequestEighteen | Backend/src/index.ts:49-81 | `/prime/18` answers 200 with {18, false, "18 is not a prime number"} |
| PrimeApi.RequestLetters | Backend/src/index.ts:49-61 | `/prime/abc` answers with the "Invalid input" error |
| PrimeApi.HealthRoute | Backend/src/index.ts:93-99 | `GET /` answers 200 with a health body whose example is "/prime/17" |
| PrimeApi.HealthAdvertisesWorkingExample | Backend/src/index.ts:93-99 | the health body advertises the route `GET /prime/{number}`, and its example path is itself answered with 200 |
| CompiledBackend.IsPrime | Backend/dist/index.js:14-29 | the compiled `isPrime` returns true exactly when its input is prime |
| CompiledBackend.HandlePrime | Backend/dist/index.js:31-68 | the compiled handler answers every parameter exactly as the TypeScript handler does |

## Left out

- Express itself is not modelled: the application object, routing, JSON serialisation, `app.listen` and the `PORT` variable. The handler is a function from the decoded path parameter to a status and body.
- Percent-decoding of the path segment is done by Express before the handler runs and is not modelled; the model starts from the decoded parameter.
- Logging is not modelled: `console.log` at startup, the `console.log("hello")` the compiled handler adds (Backend/dist/index.js:33), and `console.error` in the error middleware.
- The 500 "Internal server error" branch (Backend/src/index.ts:83-89) is left out. Nothing in the handler's body throws for any string parameter, and the modelled computation is total.
- The fallback error middleware (Backend/src/index.ts:103-110) is left out because it is framework-level error handling. It answers 500 "Something went wrong!" for errors raised outside the handler, such as a malformed JSON request body rejected by `express.json()` (Backend/src/index.ts:28) or a malformed percent-escape in the path.
- PrimeApi.PrimeRoute: numbers are exact integers, not IEEE-754 doubles.
  - For accept/reject and primality this makes no difference: values above 2^53 - 1 are rejected whatever their rounding, and every accepted non-negative value is exact.
  - It does differ for negative values below -(2^53 - 1). The source echoes those rounded, prints them in exponent form from -1e21 down, and turns them into `-Infinity` (JSON `null`) past about -1.8e308. The model echoes the exact integer and its plain decimal text.
- JsNumber.ParseInt: the text "-0" reads as the double -0 in JavaScript and as 0 in the model. The answer is the same either way: JSON prints `0`, the template literal prints "0", and 0 is not prime.
- JsNumber.ParseInt: long digit runs are read exactly, whereas JavaScript may round them to the nearest double. This matters only for values beyond 2^53 in magnitude. Positive ones are rejected by the route either way; for negative ones, see the PrimeApi.PrimeRoute line above.
- `isPrime` is never called with a fractional or NaN argument, because `parseInt` returns only integers, NaN or ±Infinity. +Infinity is rejected as too large; -Infinity (from a very long negative digit run) reaches `isPrime` and gives false, as every negative number does, which the model's exact negative integer also gives. Behaviour on fractional or NaN arguments is therefore not modelled.
- Repeated requests: the handler keeps no state, and the model is a function, so the same parameter always gets the same answer by construction. No separate lemma is stated for this.
- Oversized example: for any particular text such as "99999999999999999999", the rejection follows from PrimeApi.RejectsTextOfLargeInteger, which covers every integer above 2^53 - 1. There is no lemma about that one string.
- The frontend, the TypeScript interfaces (represented by the datatypes) and the build configuration are not part of this model.
