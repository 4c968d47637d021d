# URL shortener demo: short-code encoder and submit action

A Dafny model of the core of a single-page URL-shortening demo (a React
component, `src/App.js`). The user types a long URL and presses *Shorten*.
The component checks the input, generates a six-character short code, and
appends an entry `{ original, shortened, shortCode }` to its list.

The model has three modules:

- `JsSemantics` (`js_semantics.dfy`): the JavaScript number semantics the
  encoder depends on.
  - `ToInt32` and the five-bit left shift `x << 5`.
  - `Math.abs`.
  - The UTF-16 code units that `split('')` and `charCodeAt(0)` expose, given
    by `Utf16`.
  - Every value the encoder handles is an integer below 2^53, so it is
    modelled exactly with `int`.
- `Encoder` (`encoder.dfy`): `generateShortURL`.
  - The hash is a recursive left fold, `Hash`. Its step is
    `ToInt32(ToInt32(acc) * 32) - acc + c`: only the shift wraps to 32 bits.
  - The timestamp is a parameter, standing in for the clock read.
  - The six-round digit loop is the method `GenerateShortURL`. It is proved
    against the specification function `Digits`.
  - Lemmas show what `Digits` means. Read with the first character most
    significant, the code decodes to `|hash + timestamp| mod 62^6`. The
    decoding is also inverted.
- `App` (`app.dfy`): `handleShortenURL`.
  - `Submit` is a pure function giving the state after one submit.
  - The class `UrlShortener` holds the component's three fields. Its method
    `HandleShortenURL` goes through the checks step by step, and its
    postcondition ties the new state to `Submit`.
  - `isValidURL` wraps the browser's URL parser. It is passed in as an
    arbitrary predicate `string -> bool`.

The hash step is commonly read as the polynomial string hash
"`acc*31 + charCode` wrapped to signed 32 bits". The model follows the code,
which differs:

- Only `acc << 5` is wrapped. The subtraction and the addition are exact, so
  the hash can leave the 32-bit range.
- `HashIsPolynomialModulo32` proves that the two readings agree modulo 2^32.
- `HashLeaves32Bits` gives a concrete input on which they differ: the code
  units of "otazgsr" hash to 3142961000.

## Model

| member | source | states |
|---|---|---|
| `JsSemantics.ToInt32` | src/App.js:11 | the result is in the signed 32-bit range, and equals the argument when the argument is already in that range |
| `JsSemantics.ToInt32Modular` | src/App.js:11 | ToInt32 changes its argument by a multiple of 2^32 |
| `JsSemantics.ToInt32Congruent` | src/App.js:11 | arguments that agree modulo 2^32 have the same ToInt32 image |
| `JsSemantics.ShiftLeft5` | src/App.js:11 | `acc << 5` is a signed 32-bit value |
| `JsSemantics.ShiftLeft5Multiplies` | src/App.js:11 | `acc << 5` agrees with `acc * 32` modulo 2^32 |
| `JsSemantics.Abs` | src/App.js:18 | `Math.abs` returns the argument or its negation, never a negative number |
| `JsSemantics.Utf16` | src/App.js:10-11 | `split('')` yields at least one code unit per character, and exactly the character codes when every character lies in the Basic Multilingual Plane |
| `Encoder.CharactersAreSymbols` | src/App.js:6-7 | the alphabet has 62 symbols: A-Z are digits 0-25, a-z are 26-51, and 0-9 are 52-61 |
| `Encoder.SymbolsAreCharacters` | src/App.js:6 | a character is an ASCII letter or decimal digit exactly when it occurs in the alphabet |
| `Encoder.DigitValueOfSymbol` | src/App.js:6 | distinct digits have distinct symbols, so each digit can be recovered from its symbol |
| `Encoder.HashIsLastOfTrace` | src/App.js:10-12 | the hash is the last accumulator of the `reduce`, which starts at 0 and applies one step per code unit |
| `Encoder.HashIsPolynomialModulo32` | src/App.js:10-12 | the hash is congruent modulo 2^32 to the polynomial hash sum of c_i * 31^(n-1-i), so their 32-bit images are equal |
| `Encoder.HashStep` | src/App.js:11 | one step of the `reduce` callback, `((acc << 5) - acc) + charCode`, moves the accumulator at most 2^31 + 65535 further from 0 than it was |
| `Encoder.Hash` | src/App.js:10-12 | the `reduce` from 0 over the code units; `HashIsLastOfTrace`, `HashIsPolynomialModulo32`, `HashBound` and `HashFitsDouble` state what it computes |
| `Encoder.HashBound` | src/App.js:10-12 | the hash of n code units is at most n * (2^31 + 65535) in magnitude |
| `Encoder.HashFitsDouble` | src/App.js:10-12 | any input under 2^21 code units hashes below 2^53 in magnitude, so a JavaScript number holds it exactly |
| `Encoder.HashLeaves32Bits` | src/App.js:11 | a concrete seven-unit input hashes to 3142961000, outside the 32-bit range, because the subtraction is not wrapped |
| `Encoder.Digits` | src/App.js:17-23 | k rounds of the digit loop produce exactly k alphabet symbols |
| `Encoder.FromDigitsBound` | src/App.js:20-23 | a code of length k reads as a number below 62^k |
| `Encoder.FromDigitsOfDigits` | src/App.js:20-23 | read as base-62 with the first symbol most significant, k rounds give back the start value modulo 62^k |
| `Encoder.DigitsOfFromDigits` | src/App.js:20-23 | every string over the alphabet is the digit string of its own base-62 value, so decoding inverts the loop |
| `Encoder.DigitsCollide` | src/App.js:20-23 | two seeds give the same k-symbol code exactly when they agree modulo 62^k |
| `Encoder.Seed` | src/App.js:14-18 | `Math.abs(hash + timestamp)`; `ShortCodeDecodes` shows the code is this number modulo 62^6 |
| `Encoder.ShortCodeOf` | src/App.js:4-26 | the code `generateShortURL` returns: six alphabet symbols, the six lowest base-62 digits of the seed (`ShortCodeDecodes`, `DigitsCollide`) |
| `Encoder.GenerateShortURL` | src/App.js:4-26 | the loop method returns the specified code, which has length 6 and contains only alphabet symbols |
| `Encoder.ShortCodeDecodes` | src/App.js:14-23 | the returned code, read in base 62, is the absolute value of hash + timestamp, modulo 62^6 |
| `Encoder.ShortCodeShape` | src/App.js:6 | the returned code has exactly 6 characters, each taken from the alphabet literal |
| `Encoder.ShortCodeRepeats` | src/App.js:14-23 | codes are not unique: when hash + timestamp >= 0, the same URL gets the same code again 62^6 ms later |
| `Encoder.EmptyURLCode` | src/App.js:10-15 | the empty string hashes to 0, so its code depends only on the timestamp |
| `App.FindByOriginal` | src/App.js:73 | `find` returns nothing exactly when no entry has that original; otherwise it returns the first entry that does |
| `App.NewEntry` | src/App.js:83-87 | the new entry `{ original, shortened, shortCode }`; `SubmitNewInput` shows it holds the input, the code, and the prefixed short URL |
| `App.Submit` | src/App.js:57-93 | the state after one submit; `SubmitOutcomes`, the four per-branch lemmas and `SubmitPreservesDistinctOriginals` state what it does |
| `App.SubmitEmptyInput` | src/App.js:59-65 | an empty input sets "Please enter a URL" before validation runs, and leaves list and input unchanged |
| `App.SubmitInvalidInput` | src/App.js:67-70 | a non-empty input that fails `isValidURL` sets "Invalid URL format", and leaves list and input unchanged |
| `App.SubmitDuplicateInput` | src/App.js:73-77 | a valid input equal to some entry's original sets "URL already shortened" and adds no entry |
| `App.SubmitNewInput` | src/App.js:80-92 | otherwise, exactly one entry is appended with `original = input`, `shortCode = code`, `shortened = "http://short.url/" + code`; the code has 6 alphabet characters; the input is cleared and the error is empty |
| `App.SubmitOutcomes` | src/App.js:57-93 | every submit ends one of two ways. Either one entry is appended, earlier entries are kept, and input and error are cleared. Or list and input are unchanged and the error is one of the three messages |
| `App.SubmitPreservesDistinctOriginals` | src/App.js:73-90 | if the originals in the list are pairwise distinct, they still are after a submit |
| `App.SubmitTwice` | src/App.js:73-92 | submitting a new valid URL adds one entry; typing and submitting it again is refused as a duplicate and adds nothing |
| `App.UrlShortener.constructor` | src/App.js:39-41 | the component starts with an empty input, an empty list and no error |
| `App.UrlShortener.SetLongURL` | src/App.js:119 | typing replaces the input text and changes nothing else |
| `App.UrlShortener.HandleShortenURL` | src/App.js:57-93 | the handler's final state is `Submit` of the state before; it keeps originals distinct if they were |

## Left out

- `isValidURL` (src/App.js:29-36) wraps the browser's `URL` constructor, which implements the WHATWG URL Standard's parser. It is a parameter of the submit action, so every property above holds for any validator.
- `Date.now()` (src/App.js:14) is a clock read. It is the `timestamp` parameter.
- Loading and saving the list in `localStorage`, with JSON serialisation (src/App.js:45-55), is browser I/O. It is not modelled, and neither is a list reloaded from storage. Such a list is not checked for duplicates, which is why distinct originals are stated as a property that a submit preserves and not as a class invariant.
- `handleCopyURL` and the `copiedURL` field (src/App.js:42, 95-102) depend on the asynchronous clipboard promise and a 2-second timer. Neither the handler nor the field is modelled.
- `handleRedirect` (src/App.js:104-106) only calls `window.open`, which is I/O.
- The JSX rendering (src/App.js:108-171) is UI. The only transition it holds, the input's `onChange`, is modelled as `SetLongURL`.
- React applies the setters of one handler together after the handler returns. The model assigns the fields in order instead. Each path writes a field at most once, apart from `error`, which is written first with '' and then with the message; the last write wins in both readings, so the final state is the same.
- JavaScript strings may contain lone surrogate code units. A Dafny `string` cannot, so such input strings are outside the model.
- Numbers are assumed exact. `HashFitsDouble` shows that this holds for inputs under 2^21 code units. On longer inputs the JavaScript double could round, and that rounding is not modelled.
