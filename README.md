# AI mock interview: interview levels, question counts and database errors

This project models the two pieces of logic in the AI mock-interview web application
that have behaviour of their own, and proves what they promise.

- **Interview levels and question counts** (`types/interview.ts`). The job experience is
  typed as text. JavaScript `parseInt` reads it, and `|| 0` turns NaN into 0. The year
  count then picks one of three levels: beginner, intermediate or advanced. Each level has
  an inclusive range of question counts, and a random draw picks a count inside that range.
  `parseInt` is modelled after section 19.2.5 of ECMA-262 (module `JsParseInt`), called
  without a radix. It skips leading white space and accepts one sign. A `0x`/`0X` prefix
  switches to radix 16. It then reads the longest digit prefix and gives NaN (`None`) when
  there is none. The question and answer records are datatypes (module `Interview`).
- **Database error classification** (`utils/db.ts:29-74`). There are three error classes:
  `DatabaseError`, `UniqueConstraintError` and `ForeignKeyConstraintError`.
  `handleDatabaseError` sorts any thrown value into them using two PostgreSQL SQLSTATE
  codes from class 23 (Appendix A of the PostgreSQL manual): `23505` unique_violation and
  `23503` foreign_key_violation (module `DbErrors`). The thrown value is a sum type:
  - a member of the family;
  - another value, seen through its optional `code` and `message`;
  - `null` or `undefined`.

  An absent message (`undefined`) and an empty one (`""`) stay distinct. A default
  parameter replaces only the first; `||` replaces both.

The level is computed from the text. So `"5.9"` is five years (intermediate), `"0x10"` is
sixteen years (advanced), and `"abc"` counts as zero years (beginner). A purely numeric
reading of "years of experience" would not give those answers.

The constructors of the three classes call `super` and then overwrite `name`. They are
modelled as functions that build the finished object. `WellFormed` states what the
constructors establish: the class name, and for each subclass its SQLSTATE code.

Files: `wrappers.dfy` (`Option`), `js_parse_int.dfy`, `interview.dfy`, `db_errors.dfy`.

## Model

| member | source | states |
|---|---|---|
| `JsParseInt.ParseInt` | types/interview.ts:59 | `parseInt` without a radix. Its own contract: a non-zero result is negative exactly when a `-` sign was read. What it reads is specified by `NaNExactly`, `DecimalRoundTrip`, `HexRoundTrip`, `MinusNegates`, `PlusIgnored`, `LeadingWhiteSpaceIgnored` and `ParseIntMagnitude`. |
| `JsParseInt.TrimStartSplits` | types/interview.ts:59 | `parseInt` first removes exactly its leading white space. The input is the removed part followed by the result. The removed part is all ECMAScript white space or line terminators. The result does not begin with white space. |
| `JsParseInt.DigitPrefixIsLongest` | types/interview.ts:59 | The digits read are a prefix of the text and are all digits of the radix. The next code point, if any, is not such a digit, so this is the longest digit prefix. |
| `JsParseInt.DigitsValueBound` | types/interview.ts:59 | `k` digits of a radix denote a number below radix to the power `k`. |
| `JsParseInt.LeadingWhiteSpaceIgnored` | types/interview.ts:59 | Any leading white space leaves the result of `parseInt` unchanged. |
| `JsParseInt.DecimalRoundTrip` | types/interview.ts:59 | The decimal text of any integer parses back to that integer. This holds after any white space and before any text that cannot continue the number. |
| `JsParseInt.HexRoundTrip` | types/interview.ts:59 | `0x` or `0X` followed by the hexadecimal digits of `n` parses to `n`. |
| `JsParseInt.MinusNegates` | types/interview.ts:59 | A leading `-` negates the value that follows. NaN stays NaN. |
| `JsParseInt.PlusIgnored` | types/interview.ts:59 | A leading `+` leaves the value unchanged, and NaN stays NaN. |
| `JsParseInt.ParseIntMagnitude` | types/interview.ts:59 | A parsed value lies strictly between minus and plus the radix to the power of the number of digits read. |
| `JsParseInt.NaNExactly` | types/interview.ts:59 | The result is NaN exactly in two cases. Either the text after white space and one sign does not begin with a decimal digit, or it is `0x`/`0X` not followed by a hexadecimal digit. |
| `JsParseInt.NonDigitStartIsNaN` | types/interview.ts:59 | Text that begins with something other than white space, a sign or a digit is NaN. |
| `JsParseInt.FractionIsCut` | types/interview.ts:59 | `parseInt("3.9")` is 3. |
| `JsParseInt.NegativeNumber` | types/interview.ts:59 | `parseInt("-4")` is -4. |
| `JsParseInt.HexPrefix` | types/interview.ts:59 | `parseInt("0x10")` is 16. |
| `JsParseInt.LettersAreNaN` | types/interview.ts:59 | `parseInt("abc")` is NaN. |
| `JsParseInt.EmptyIsNaN` | types/interview.ts:59 | `parseInt("")` is NaN. |
| `JsParseInt.SignAloneIsNaN` | types/interview.ts:59 | `parseInt("-")` is NaN. |
| `JsParseInt.BarePrefixIsNaN` | types/interview.ts:59 | `parseInt("0x")` is NaN: the prefix is consumed and no digit follows. |
| `Interview.ExperienceYears` | types/interview.ts:59 | `parseInt(jobExperience)`, with NaN mapped to 0 by the logical or: NaN gives 0 years, and a value `v` that `parseInt` reads gives `v` years; the count is 0 exactly when the result is NaN or 0. `NaNIsBeginner` and `LevelOfWrittenYears` build on it. |
| `Interview.GetQuestionCountRange` | types/interview.ts:40-51 | For every level, `5 <= min <= max <= 15`. |
| `Interview.DocumentedRanges` | types/interview.ts:40-47 | The ranges are exactly beginner 5 to 8, intermediate 8 to 12 and advanced 10 to 15. |
| `Interview.RangeMonotone` | types/interview.ts:40-47 | A higher level has a minimum and a maximum that are at least as large. |
| `Interview.GenerateRandomQuestionCount` | types/interview.ts:53-56 | For every admissible draw, the count lies in the inclusive range of its level. |
| `Interview.EveryCountCanBeDrawn` | types/interview.ts:53-56 | Every count in the range is produced by some admissible draw, so the draw covers the range exactly. |
| `Interview.RandomFloorIsOffset` | types/interview.ts:55 | For every `u` with `0 <= u < 1`, `floor(u * (max - min + 1))` is an admissible draw. |
| `Interview.PredictInterviewLevel` | types/interview.ts:58-67 | Beginner if and only if the parsed experience is at most 2. Intermediate if and only if it is 3 to 5. Advanced if and only if it is above 5. |
| `Interview.LevelIgnoresPositionAndDescription` | types/interview.ts:58-67 | The level depends only on the experience text. |
| `Interview.LevelMonotone` | types/interview.ts:61-67 | More parsed experience never gives a lower level. |
| `Interview.NaNIsBeginner` | types/interview.ts:59-62 | Experience text without a leading integer counts as 0 years and gives beginner. |
| `Interview.LevelOfWrittenYears` | types/interview.ts:59-67 | Any integer written in decimal, with leading white space and trailing non-digits, counts as that many years and gets the level of that number. |
| `Interview.FractionalYearsAreCut` | types/interview.ts:59-64 | `"5.9"` is intermediate. |
| `Interview.NegativeYearsAreBeginner` | types/interview.ts:59-62 | `"-4"` is beginner. |
| `Interview.LettersAreBeginner` | types/interview.ts:59-62 | `"abc"` is beginner. |
| `Interview.SixYearsAreAdvanced` | types/interview.ts:59-67 | `"6"` is advanced. |
| `Interview.HexYearsAreAdvanced` | types/interview.ts:59-67 | `"0x10"` is sixteen years, so advanced. |
| `DbErrors.NewDatabaseError` | utils/db.ts:29-37 | The result is a well-formed plain `DatabaseError` named `DatabaseError`. It keeps the given message, code and original error. |
| `DbErrors.NewUniqueConstraintError` | utils/db.ts:40-45 | The result is well formed, named `UniqueConstraintError`, with code `23505`. A given message is kept, even an empty one. Only an absent message becomes `Unique constraint violation`. The original error is kept. |
| `DbErrors.NewForeignKeyConstraintError` | utils/db.ts:47-52 | The result is well formed, named `ForeignKeyConstraintError`, with code `23503`. A given message is kept, even an empty one. Only an absent message becomes `Foreign key constraint violation`. The original error is kept. |
| `DbErrors.HandleDatabaseError` | utils/db.ts:55-74 | A family member is returned unchanged. `null` and `undefined` throw a TypeError and nothing else does. Any other value gives a well-formed error whose code is the input's code and whose original error is the input. That error is a unique-constraint error exactly when the code is `23505`, and a foreign-key error exactly when it is `23503`. |
| `DbErrors.OtherCodesArePlain` | utils/db.ts:67-72 | Any other code, or no code, gives a plain error named `DatabaseError` that keeps the code. |
| `DbErrors.PlainMessage` | utils/db.ts:68-69 | In the plain branch, a missing or empty message becomes `Unknown database error occurred`. Any other message is kept, so the message is never empty. |
| `DbErrors.ConstraintMessage` | utils/db.ts:40-66 | In the two constraint branches, a present message is kept, even `""`. An absent message becomes the default of its class. |
| `DbErrors.EmptyMessageDependsOnBranch` | utils/db.ts:40-72 | An empty message survives a constraint error and is replaced in a plain one. |
| `DbErrors.Idempotent` | utils/db.ts:55-58 | Handling an already handled error returns it unchanged. |
| `DbErrors.ResultWellFormed` | utils/db.ts:29-74 | Every returned error is well formed unless it was passed in ill formed. |

## Left out

- utils/db.ts:1-26 are not modelled: the `DATABASE_URL` check, the Neon HTTP client, the Drizzle instance and query logging are module-level I/O and foreign libraries.
- Interview.GenerateRandomQuestionCount: takes the random draw as a parameter. `Math.random` and its floating-point product are not modelled. `Interview.RandomFloorIsOffset` uses exact reals in place of doubles.
- The `default` branch of `getQuestionCountRange` (types/interview.ts:48-49) is unreachable for the three-valued level type. A string outside that type, passed at run time, is not modelled.
- JsParseInt.ParseInt: returns an unbounded integer, not a double. The model leaves out three things: rounding above 2^53, Infinity once the magnitude reaches about 1.8 × 10^308, and approximation beyond 20 significant digits. `JsParseInt.ParseIntMagnitude` bounds a result by the radix to the power of the digits read: 308 decimal digits stay below 10^308 and 255 hexadecimal digits below 2^1020, both under the largest finite double. So decimal text needs more than 308 digits, and hexadecimal text more than 255 digits, to reach Infinity. Double rounding keeps the order and is exact near 2 and 5, and +Infinity is above 5 while -Infinity is at most 2, so the predicted level is the same.
- JsParseInt.ParseInt: writes -0 as 0. In the source, `-0 || 0` is 0 as well.
- JsParseInt.ParseInt: reads strings as Unicode scalar values, not UTF-16 code units. Lone surrogates cannot be written. Every white-space code point and every digit is a single code unit, so no result changes.
- The explicit radix argument of `parseInt` is not modelled; the source never passes one.
- DbErrors.HandleDatabaseError: models `code` and `message` of a thrown value as strings only. A numeric code such as `23505` fails the strict comparison of `switch` and goes to the default branch. Accessors that throw when read are not modelled either.
- DbErrors.HandleDatabaseError: compares values, not object identity. "Returned unchanged" is equality of values, not the same reference. The `stack` property and the inherited `name` (`"Error"`) that the object has before the constructor overwrites it are not modelled.
- `Question`, `AnswerRecord` and `InterviewConfig` are data declarations with no behaviour. They are modelled as datatypes. `Question.Type` only returns the `type` tag that the variant already fixes, so it has no contract.
- Not part of this model: utils/schema.ts (table declarations), components/ui/code-editor.tsx (UI and regex-based highlighting), the pages and layouts (presentation and authentication wiring), and the server actions (prompt building, calls to the generation service, persistence).
