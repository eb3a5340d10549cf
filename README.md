# Array and string transformations, modelled in Dafny

This project models `src/arrays.ts`: nine small functions, each independent of the others, that transform a list of numbers or strings:

- `bookEndList`: the first and last number.
- `tripleNumbers`: each number times 3.
- `stringsToIntegers`: numeric coercion, with 0 for text that is not a number.
- `removeDollars`: the same coercion after one leading `$` is stripped.
- `shoutIfExclaiming`: upper-cases messages that end in `!` and then drops messages that end in `?`.
- `countShortWords`: counts the words whose `length` is below 4.
- `allRGB`: checks that every colour is red, green or blue.
- `makeMath`: renders the equation `sum=a0+a1+...`.
- `injectPositive`: inserts the sum of the numbers before the first negative right after that negative, or appends the total when no number is negative.

Numbers are unbounded `int`s and strings are `seq<char>`.

Files:

- `wrappers.dfy` (module `Wrappers`): `Option`.
- `numerals.dfy` (module `Numerals`): decimal rendering of integers (`IntToString`) and decimal parsing (`ParseInt`). Together they stand in for JavaScript's unary `+` coercion with its `isNaN` test, and for `Number.prototype.toString`. The module proves that parsing the rendering of any integer gives it back, and that rendering the parse of a canonical numeral (no '+', no leading zero, not "-0") gives the numeral back.
- `text.dfy` (module `Text`): the length of a string in UTF-16 code units (what JavaScript's `length` counts), the last-character test, ASCII upper-casing, `Join` (what `Array.prototype.join` does) and its inverse `Split`.
- `arrays.dfy` (module `Arrays`): the nine operations.
  - Seven are functions, written as the `map`/`filter`/`some`/`reduce` expressions of the source.
  - `countShortWords` is a method with a counter loop.
  - `injectPositive` is a method with the source's `sum` and `negativePassed` accumulator loop. Each pass of the loop calls `Visit`, which is the `reduce` callback.
  - Both methods are proved against specification functions (`ShortWordCount`, `Injected`).
  - Lemmas prove the properties of those functions.

The empty-string case of `shoutIfExclaiming`: JavaScript reads `message[-1]` there and gets `undefined`, which equals neither `"!"` nor `"?"`. `Text.EndsWith` is therefore false on the empty string, so an empty message is kept unchanged.

Lengths: JavaScript's `word.length` counts UTF-16 code units, so a character above U+FFFF counts twice. `Text.Utf16Length` counts the same way, and `Arrays.IsShort` uses it: `["😀😀"]` holds no short word. The last-character test needs no such care. When the last character of a JavaScript string is above U+FFFF, `message[message.length - 1]` is its low surrogate, which is neither `"!"` nor `"?"`. The model's last character is then the astral character, which is neither of them either.

On parsing: JavaScript coerces `""` to 0, not to NaN. The model reads "" as not a numeral, and that also yields 0.

## Model

| member | source | states |
|---|---|---|
| Arrays.BookEndList | src/arrays.ts:7-12 | empty input gives []; otherwise exactly two elements, the first and the last input number |
| Arrays.BookEndSingleton | src/arrays.ts:4-5 | a one-element list gives that element twice |
| Arrays.BookEndIdempotent | src/arrays.ts:7-12 | applying bookEndList to its own result changes nothing |
| Arrays.BookEndIgnoresMiddle | src/arrays.ts:11 | only the two ends of the list matter; the middle is dropped |
| Arrays.TripleNumbers | src/arrays.ts:18-20 | same length, and element i is 3 times input element i |
| Arrays.TripleTwice | src/arrays.ts:18-20 | tripling twice multiplies each element by 9 |
| Arrays.TripleConcat | src/arrays.ts:19 | tripling distributes over concatenation (an element-wise map) |
| Arrays.StringsToIntegers | src/arrays.ts:26-28 | same length; an element that does not parse is 0, otherwise it is the parsed value |
| Arrays.RenderAll | src/arrays.ts:104 | each number rendered in decimal, in order |
| Arrays.StringsToIntegersOfRendering | src/arrays.ts:27 | converting the decimal renderings of any numbers gives those numbers back |
| Arrays.DollarAmount | src/arrays.ts:38-43 | a numeral is read as itself (no numeral starts with '$'); a non-zero result is the parse of the amount or of the amount after its leading '$' |
| Arrays.RemoveDollars | src/arrays.ts:37-44 | same length; an amount starting with '$' gives the parse of the rest, any other gives its own parse; a failed parse gives 0 |
| Arrays.RemoveDollarsWithoutDollars | src/arrays.ts:39-42 | without a '$' prefix, removeDollars agrees with stringsToIntegers |
| Arrays.RemoveDollarsPrefix | src/arrays.ts:39-40 | a '$' prefix makes no difference to the number obtained |
| Arrays.RemoveDollarsOfRendering | src/arrays.ts:39-40 | '$' followed by a rendered integer reads as that integer |
| Arrays.RemoveDollarsFailures | src/arrays.ts:39-40 | "$", "$abc" and "$$5" all give 0: only one '$' is stripped |
| Arrays.Shout | src/arrays.ts:53-58 | the mapping step keeps whether the message ends in '!' and whether it ends in '?' |
| Arrays.ShoutIfExclaiming | src/arrays.ts:51-62 | never longer than the input, and no surviving message ends in '?' |
| Arrays.ShoutKeepsExclaimed | src/arrays.ts:53-61 | for every input message ending in '!', its upper-cased form is in the result |
| Arrays.ShoutKeepsQuiet | src/arrays.ts:53-61 | every input message ending in neither '!' nor '?' (the empty one included) is in the result unchanged |
| Arrays.ShoutOnlyFromInput | src/arrays.ts:53-61 | every element of the result is Shout(messages[i]) for some input message i that does not end in '?' |
| Arrays.ShoutConcat | src/arrays.ts:52-61 | map-then-filter distributes over concatenation, so relative order is kept |
| Arrays.ShoutIdempotent | src/arrays.ts:51-62 | applying shoutIfExclaiming to its own result changes nothing |
| Arrays.ShoutQuiet | src/arrays.ts:53-61 | messages ending in neither '!' nor '?' come back unchanged |
| Arrays.IsShort | src/arrays.ts:71 | a word is short when its UTF-16 length is below 4 |
| Arrays.ShortWordCount | src/arrays.ts:68-74 | the count of words whose UTF-16 length is below 4 never exceeds the number of words |
| Arrays.ShortPositions | src/arrays.ts:71 | holds exactly the positions, within the list, of words whose UTF-16 length is below 4 |
| Arrays.ShortWordCountIsSize | src/arrays.ts:68-74 | the count equals the number of positions holding a word of UTF-16 length below 4 |
| Arrays.ShortWordCountConcat | src/arrays.ts:69-73 | counting a concatenation adds the counts |
| Arrays.ShortWordCountAll | src/arrays.ts:71 | the count equals the length exactly when every word is short |
| Arrays.ShortWordCountNone | src/arrays.ts:71 | the count is 0 exactly when no word is short |
| Arrays.ShortWordCountAstral | src/arrays.ts:71 | a word of two characters above U+FFFF has length 4 and is not short, while "abc" is |
| Arrays.CountShortWords | src/arrays.ts:68-74 | the counter loop, testing `word.length < 4` in UTF-16 code units, returns the specified count, which is the number of short positions |
| Arrays.SomeNotRGB | src/arrays.ts:86 | true exactly when some colour is not in ["red", "green", "blue"] |
| Arrays.AllRGB | src/arrays.ts:81-87 | empty input gives true; true exactly when every colour is "red", "green" or "blue" |
| Arrays.AllRGBAppend | src/arrays.ts:81-87 | appending a colour keeps the answer true only when that colour is red, green or blue |
| Arrays.AllRGBConcat | src/arrays.ts:86 | the answer for a concatenation is the conjunction of the answers for its parts |
| Arrays.Sum | src/arrays.ts:101 | the sum of one number is that number; a list of non-negative numbers has a non-negative sum |
| Arrays.MakeMath | src/arrays.ts:96-105 | the empty list gives "0=0"; for every list the text starts with the decimal rendering of the sum, followed by '=' |
| Arrays.SumConcat | src/arrays.ts:101 | the sum of a concatenation is the sum of the sums |
| Arrays.MakeMathEquals | src/arrays.ts:100-104 | for a non-empty list, the first '=' separates the rendered sum from the '+'-joined rendered addends |
| Arrays.MakeMathReadsSum | src/arrays.ts:96-103 | for every list (the empty one's "0=0" included), the text before the first '=' parses to the sum of the addends |
| Arrays.MakeMathReadsAddends | src/arrays.ts:103-104 | for a non-empty list, the '+'-separated parts after the first '=' convert back to the addends, in order |
| Arrays.MakeMathEmpty | src/arrays.ts:97-98 | the empty list gives "0=0", the same text as [0] |
| Arrays.MakeMathExample | src/arrays.ts:93 | [1, 2, 3] gives "6=1+2+3" |
| Arrays.FirstNegative | src/arrays.ts:128-130 | the position of the first negative number: every number before it is non-negative, and the length when there is none |
| Arrays.FirstNegativeAt | src/arrays.ts:128-130 | a negative number preceded only by non-negative numbers is the first negative |
| Arrays.Injected | src/arrays.ts:107-119 | one longer than the input; the empty list gives [0]; every number up to and including the first negative keeps its position, and every number after it moves one place right |
| Arrays.InjectedRemove | src/arrays.ts:108-111 | removing the inserted number gives the input back; that number, placed right after the first negative (at the end if none), is the sum of everything before the first negative |
| Arrays.InjectedTrailingNegative | src/arrays.ts:128-134 | a negative last number is followed by the sum, and nothing else is appended |
| Arrays.InjectedExampleNegative | src/arrays.ts:113 | [1,9,-5,7] gives [1,9,-5,10,7] |
| Arrays.InjectedExampleNoNegative | src/arrays.ts:114 | [1,9,7] gives [1,9,7,17] |
| Arrays.InjectedExampleTrailing | src/arrays.ts:128-134 | [3,-2] gives [3,-2,3]: the sum follows a trailing negative and nothing more is appended |
| Arrays.Visited | src/arrays.ts:120-136 | the state of the pass after i values; once all values are visited, the output is the specified list Injected(values) |
| Arrays.Visit | src/arrays.ts:123-136 | one call of the reduce callback (push, add a non-negative value to the sum, push the sum after the first negative, push it after the last value when no negative was passed) keeps the state of the pass, Visited, from prefix i to prefix i+1 |
| Arrays.InjectPositive | src/arrays.ts:116-139 | the accumulator loop produces the specified list (values[..k+1] + [Sum(values[..k])] + values[k+1..] for first negative k, else values + [Sum(values)]) and is one longer than the input |
| Numerals.NatToString | src/arrays.ts:102-104 | canonical digits (no leading zero) whose value is the number |
| Numerals.IntToString | src/arrays.ts:102-104 | non-empty; starts with '-' exactly for negative numbers; otherwise only digits |
| Numerals.ParseDigits | src/arrays.ts:27 | succeeds exactly on a non-empty run of digits, and then gives the value of those digits |
| Numerals.ParseInt | src/arrays.ts:27 | succeeds exactly on an optionally signed digit run; the value is the value of the digits, negated after '-'; the sign of the result follows the text |
| Numerals.NumberOrZero | src/arrays.ts:27 | a numeral gives its value; any non-zero result is the value of a numeral, so failure gives 0 |
| Numerals.DigitsValueLeadingZero | src/arrays.ts:27 | a leading zero does not change the value of a digit run |
| Numerals.ParsePlus | src/arrays.ts:27 | "+" followed by digits parses as the digits alone |
| Numerals.ParseLeadingZero | src/arrays.ts:27 | "0" followed by digits parses as the digits alone, so "007" is 7 |
| Numerals.ParseMinusZero | src/arrays.ts:27 | "-0" parses as 0 |
| Numerals.ParseIntToString | src/arrays.ts:27 | parsing the rendering of any integer gives it back |
| Numerals.NatToStringOfDigits | src/arrays.ts:102-104 | rendering the value of a canonical digit run gives the run back |
| Numerals.IntToStringOfParse | src/arrays.ts:27 | a canonical numeral is the rendering of its parsed value |
| Numerals.ParseIntRejects | src/arrays.ts:27 | text containing a character that is neither a digit nor a leading sign does not parse (so it yields 0) |
| Text.Utf16Length | src/arrays.ts:71 | the UTF-16 length lies between the number of characters and twice that |
| Text.Utf16LengthBmp | src/arrays.ts:71 | text of Basic Multilingual Plane characters has one code unit per character |
| Text.Utf16LengthConcat | src/arrays.ts:71 | code units add up over concatenation |
| Text.EndsWith | src/arrays.ts:54-60 | the last character is the given one; the empty string ends in none |
| Text.EndsWithAppend | src/arrays.ts:54-60 | a string ends in c exactly when it is a string followed by c; appending c makes a string end in c and in nothing else |
| Text.UpperChar | src/arrays.ts:55 | a-z map to A-Z; every other character is kept |
| Text.UpperCase | src/arrays.ts:55 | same length, and each character is its ASCII upper-case form |
| Text.UpperCaseIdempotent | src/arrays.ts:55 | upper-casing twice is upper-casing once |
| Text.UpperCaseEndsWith | src/arrays.ts:54-60 | upper-casing neither adds nor removes a final '!' or '?' |
| Text.Join | src/arrays.ts:104 | no parts give "", one part gives that part, and n parts give at least n - 1 characters (the separators) |
| Text.JoinChars | src/arrays.ts:104 | every character of the joined text is the separator or a character of some part |
| Text.SplitJoin | src/arrays.ts:104 | splitting a join on its separator gives the parts back, when no part contains the separator |

## Left out

- JavaScript's numeric coercion `+str` with `isNaN` (src/arrays.ts:27, 40, 42) is replaced by a decimal-integer parse. It accepts an optional single sign followed by one or more digits. JavaScript also trims whitespace and accepts decimals, exponents, hexadecimal, octal (`0o17`) and binary (`0b11`) literals and `Infinity`; here all of those yield 0.
- StringsToIntegers: states the parse on decimal integers only, so "3.5" gives 0 here, where the source gives 3.5 (see the line above).
- RemoveDollars: the same restriction to decimal integers after the optional '$'.
- IEEE-754 double arithmetic in `num * 3` (src/arrays.ts:19) and in the sums of `makeMath` and `injectPositive`: numbers are unbounded integers, so there is no rounding, no overflow to `Infinity`, no `NaN` and no `-0`.
- `Number.prototype.toString` for non-integers (src/arrays.ts:102-104): only the decimal rendering of integers is modelled.
- Full Unicode `toUpperCase` (src/arrays.ts:55), which can change a string's length: only ASCII a-z to A-Z is modelled.
- Utf16Length: a JavaScript string may hold unpaired surrogate code units. A Dafny string holds Unicode scalar values only, so such strings are not represented.
- InjectPositive: the source pushes into the array `sumArr` in place inside `reduce`. The model reassigns a sequence, so the aliasing of that array is not captured. (The array is local to the call in the source.)
