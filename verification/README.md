# GS1 element-string parsing of qractualizado, in Dafny

This project models the two GS1 pipelines of the qractualizado barcode
scanner web app and proves properties of them.

- **scanner.js** has four parts:
  - the AI tables and the label lookup `getGS1Description`;
  - `formatGS1Date`, which checks a YYMMDD date, applies the code's own
    "+10 years" century window, checks that the day exists in the calendar,
    and renders `DD/MM/YYYY` with the expiry marker;
  - `parseGS1Data`, a cursor walk that tries 4-, 3- and 2-character AI
    candidates, reads fixed-length or FNC1-terminated values, then adds
    `_formatted` and `_expired` entries for the date AIs;
  - `detectarProveedorMejorado`, a fixed-priority provider classifier.
- **script.js** has a simpler parser and a scan log:
  - `parseGS1` splits on the group separator. Without one, it takes the
    global matches of `/(\d{2})([^\d\x1D]+)/`. It keeps AIs 01, 10, 17, 21
    and 22.
  - `validateFields` annotates AI 17.
  - The scan log is `isDuplicate`, the append-if-new step of
    `onScanSuccess` and the delete button's `splice`.

Strings are `seq<char>`. Parsed fields are maps. The log is a sequence of
rows. Everything is a pure function.

Several JavaScript behaviours are written out in `JsString`:
- `substring` clamps its bounds;
- `indexOf`;
- `trim` over the full ECMAScript white-space and line-terminator set;
- `parseInt` and `toString` on decimal digits;
- `padStart`;
- `startsWith` and `includes`.

The wall clock becomes a parameter:
- a `Clock` (local full year, today's UTC date) for scanner.js;
- a boolean `isPast` for the `date < now` comparison of script.js.

Files and modules:
- `js_string.dfy`: `Optional` and `JsString`.
- `registry.dfy`: `Gs1Registry`, the AI tables and `getGS1Description`.
- `dates.dfy`: `Gs1Dates`, `formatGS1Date`.
- `tokenizer.dfy`: `Gs1Tokenizer`, `parseGS1Data`, and the encode/decode
  round trip.
- `classifier.dfy`: `ProviderClassifier`, `detectarProveedorMejorado`.
- `simple_parser.dfy`: `ScriptParser`, `parseGS1` and `validateFields`.
- `scan_log.dfy`: `ScanLog`, duplicate check, append and delete.

The central result is `Gs1Tokenizer.RoundTrip`. Take any sequence of valid
element strings, with lengths fixed by the code's own tables (scanner.js:73-74).
Join them with an FNC1 after every variable-length value except the last. After
each fixed-length value that is not the last, put an FNC1 or nothing, chosen
element by element. This covers the GS1 concatenation rule, which puts an FNC1
after every element except the last, unless that element's AI is of predefined
length. So it covers AI 8005: the code's table treats it as fixed-length, but it
is not of predefined length, so GS1 writes an FNC1 after it
(`Gs1Tokenizer.Fnc1After8005Decoded`). The tokenizer reads that text back into exactly the encoded fields, with
later repeats winning. The proof rests on three facts:
- known AI codes are prefix-free (`Gs1Registry.PrefixFree`);
- the longest-first candidate search therefore always finds the code that
  was written (`Gs1Tokenizer.KnownCodeIsRead`);
- the fixed and variable readers return exactly the value that was written.

## Model

| member | source | states |
|---|---|---|
| `JsString.Substring` | scanner.js:80 | `substring` with both bounds clamped to the length: the plain slice when in range, the rest when the end is past the length, empty when both are |
| `JsString.IndexOf` | scanner.js:88 | `indexOf(c, from)`: the first position at or after `from` holding `c`, and none exactly when no such position exists |
| `JsString.Trim` | script.js:18 | `trim`: the result is a contiguous piece of the input, everything dropped before and after it is white space, and it neither starts nor ends with white space |
| `JsString.UpperIdempotent` | scanner.js:125 | upper-casing an already upper-cased text changes nothing |
| `JsString.UpperChangesOnlyLowercase` | scanner.js:125 | a character changes exactly when it is a lower-case ASCII letter, and no lower-case ASCII letter is left (see Left out) |
| `JsString.Pad2RoundTrip` | scanner.js:64 | `padStart(2, '0')` of a number below 100 is two digits that read back as that number |
| `Gs1Registry.Description` | scanner.js:42-48 | the table label when the AI is listed; the 310d/392d/393d family label carrying the fourth digit; "Desconocido" exactly when neither applies |
| `Gs1Registry.FamilyLabelCarriesDecimals` | scanner.js:44-46 | a family AI is never in the table, and its label shows the AI's decimal digit and is never "Desconocido" |
| `Gs1Registry.KnownIsDescribed` | scanner.js:73-81 | a candidate passes the three-table test exactly when it is in the description table (the fixed and variable tables add no codes) |
| `Gs1Registry.KnownByLength` | scanner.js:29-37 | every listed code is 2 to 4 digits and lies in the set of listed codes of its length |
| `Gs1Registry.CodesByLength` | scanner.js:29-37 | the description table's codes are exactly the twelve two-digit, eight three-digit and one four-digit codes of the three sets |
| `Gs1Registry.PrefixFree` | scanner.js:29-37 | no known code is a proper prefix of another known code |
| `Gs1Registry.KnownIsNoFamily` | scanner.js:99 | no known code has the 310d, 392d or 393d shape, so the numeric post-pass can never see a key the tokenizer produced |
| `Gs1Dates.UtcNormalize` | scanner.js:59-60 | `Date.UTC` on month 1-12 and day 1-31 lands on a real calendar day, and on the given day exactly when the day fits the month |
| `Gs1Dates.WindowYear` | scanner.js:55-56 | the full year keeps the two digits, and is in the 2000s exactly when YY is at most the current two-digit year plus ten, otherwise in the 1900s |
| `Gs1Dates.FormatGS1Date` | scanner.js:50-68 | non-six-digit input comes back unchanged with null flag and date; six digits give a flag exactly when the windowed date exists, otherwise the input plus " (Fecha inválida)"; the flag is "strictly before today (UTC)" |
| `Gs1Dates.DisplayRoundTrip` | scanner.js:64 | `DD/MM/YYYY` of a four-digit year is ten characters and parses back to the same date |
| `Gs1Dates.FormatRoundTrip` | scanner.js:61-66 | an accepted date's text starts with a `DD/MM/YYYY` reading back as the date built from the input's digits, then " (¡Vencido!)" exactly when it is expired |
| `Gs1Dates.ImpossibleDayRejected` | scanner.js:57-60 | a day past the end of its month (30 February, 31 April, 29 February of a common year) is reported invalid whatever the clock |
| `Gs1Tokenizer.MatchFrom` | scanner.js:79-81 | the chosen candidate length lies between 2 and the starting length, and that candidate passes the acceptance test (in the tokenizer: all digits and in one of the three tables) |
| `Gs1Tokenizer.MatchFromLongest` | scanner.js:79-81 | no candidate longer than the chosen one is accepted (longest match first) |
| `Gs1Tokenizer.MatchFromNone` | scanner.js:79-81 | the search fails exactly when no candidate from length 2 up to the starting length (4 in the tokenizer) is accepted |
| `Gs1Tokenizer.CandidateShape` | scanner.js:80 | a candidate is the text at the cursor; it is shorter than asked only when it reaches the end of input |
| `Gs1Tokenizer.ReadFixed` | scanner.js:83-86 | with enough input the value has the table length and one FNC1 right after it is skipped; otherwise it is the whole rest and the cursor goes to the end |
| `Gs1Tokenizer.ReadVariable` | scanner.js:88-90 | the value is the text up to the next FNC1, which is consumed, or to the end of input; it never holds an FNC1 |
| `Gs1Tokenizer.ReadToken` | scanner.js:82-92 | the token's AI is the candidate, `ai + value` is the text at the cursor, and the cursor moves strictly forward |
| `Gs1Tokenizer.Step` | scanner.js:78-95 | a turn of the loop finds nothing exactly when no candidate is accepted, and otherwise moves the cursor strictly forward, never past the end |
| `Gs1Tokenizer.StepToken` | scanner.js:79-92 | the AI read is the longest accepted candidate, and it is followed by its value in the input |
| `Gs1Tokenizer.StepFixed` | scanner.js:83-86 | after a fixed-length AI, the value has the table length or is the truncated rest; the cursor skips one FNC1 exactly after a complete value followed by one |
| `Gs1Tokenizer.StepVariable` | scanner.js:88-90 | after a variable-length AI, the value is an FNC1-free run ended by an FNC1, which is consumed, or by the end of input |
| `Gs1Tokenizer.ScanKeys` | scanner.js:77-96 | the loop keeps every field it has and adds only known AIs; where no known AI starts, or at the end, it returns what it has |
| `Gs1Tokenizer.ScanStep` | scanner.js:92 | the unfolding equation of the loop, used as a proof step: after a reading, the loop goes on from the new cursor with the value stored under its AI, replacing any earlier one |
| `Gs1Tokenizer.RepeatedAiOverwrites` | scanner.js:92 | of two readings of the same AI in a row, only the second value remains |
| `Gs1Tokenizer.WeightCodeReadAs310` | scanner.js:79-90 | "3102000123" is read as AI 310 with the variable-length value "2000123", because 3102 is in no table |
| `Gs1Tokenizer.AddDate` | scanner.js:98 | one date AI present in the raw fields gets its `_formatted` entry and, for 15 and 17, its `_expired` entry; no other key is touched or added |
| `Gs1Tokenizer.PostPass` | scanner.js:97-100 | every date AI present gets its entries, keys not written by a rule keep their values, and nothing else is added |
| `Gs1Tokenizer.Interpret` | scanner.js:97-100 | every raw field stays with its text; 11, 13, 15 and 17 gain `_formatted` from the date formatting; only 15 and 17 gain `_expired`; no other key appears |
| `Gs1Tokenizer.NoExpiryForProductionDates` | scanner.js:98 | there is never an `11_expired` or `13_expired` entry |
| `Gs1Tokenizer.InterpretKeys` | scanner.js:97-100 | every key of the result is a raw AI or an `<ai>_...` key |
| `Gs1Tokenizer.ParseGS1Data` | scanner.js:70-102 | empty input gives no fields, and every key is a known AI or an `<ai>_...` key |
| `Gs1Tokenizer.KnownCodeIsRead` | scanner.js:79-81 | where a known code starts, the longest-first search picks exactly that code, whatever digits follow it |
| `Gs1Tokenizer.StepAtKnown` | scanner.js:79-92 | where a known code starts, the step reads that code and then its value from right after it |
| `Gs1Tokenizer.ReadKnownFixed` | scanner.js:83-85 | a known fixed-length AI followed by a complete value is read as exactly that value, skipping one FNC1 if present |
| `Gs1Tokenizer.ReadKnownVariable` | scanner.js:88-90 | a known variable-length AI followed by an FNC1-free run up to an FNC1 or the end is read as exactly that run, consuming the FNC1 |
| `Gs1Tokenizer.StepElement` | scanner.js:79-92 | an element string followed by what the concatenation rule allows (nothing, an FNC1, or a digit after fixed data) is read whole, the FNC1 consumed |
| `Gs1Tokenizer.StepEncode` | scanner.js:77-95 | at the start of an encoding, one turn reads the first element and leaves the cursor on the encoding of the rest |
| `Gs1Tokenizer.ScanEncode` | scanner.js:77-96 | from any cursor where a valid encoding starts, the loop collects exactly the encoded fields, later ones winning |
| `Gs1Tokenizer.RoundTrip` | scanner.js:70-96 | decoding the concatenation of valid element strings gives back exactly the encoded fields, with an FNC1 after every non-final variable-length value and with or without one after each fixed-length value |
| `Gs1Tokenizer.Fnc1After8005Decoded` | scanner.js:83-92 | AI 8005, its six digits, an FNC1, then AI 10 with "ABC" decodes to both fields, the FNC1 skipped |
| `Gs1Tokenizer.ParsedCodeIsText` | scanner.js:92 | an all-digit key of `parseGS1Data`'s result is a scanned AI, so its entry is a string |
| `ProviderClassifier.FieldOfParsedCode` | scanner.js:122-124 | on the parser's output, the 01, 10 and 21 tests are false exactly when the AI is absent or its value is the empty string |
| `ProviderClassifier.FirstProvider` | scanner.js:122 | the loop over providers returns the first one in declaration order that the rule recognises, and none exactly when none is recognised |
| `ProviderClassifier.FirstHit` | scanner.js:122-126 | the first rule, in the order GTIN, lot, serial, text, that recognises any provider, with the first such provider; none exactly when nothing hits |
| `ProviderClassifier.FirstHitUnique` | scanner.js:122-126 | any hit with no hit of an earlier rule, and no earlier provider under the same rule, is the one found |
| `ProviderClassifier.Detect` | scanner.js:119-127 | "No identificado" exactly when no rule recognises any provider; otherwise a `<provider> (por <rule>)` label of a real hit |
| `ProviderClassifier.LabelIsIdentified` | scanner.js:122-126 | no provider label equals "No identificado" |
| `ProviderClassifier.LabelsDistinct` | scanner.js:122-125 | a label determines its provider and its rule |
| `ProviderClassifier.DetectIsFirstHit` | scanner.js:119-127 | a returned label comes from a hit, with no hit under an earlier rule and none by an earlier provider under the same rule |
| `ProviderClassifier.FirstHitIsDetected` | scanner.js:119-127 | conversely, the earliest hit in rule-then-provider order is the label returned |
| `ProviderClassifier.MatchesIgnoresCase` | scanner.js:121 | both `/i` patterns match a string exactly when they match its upper-case form |
| `ProviderClassifier.TextCheckIgnoresCase` | scanner.js:125 | the raw-text check gives the same answer for a text and its upper-case form |
| `ProviderClassifier.GtinPrefixWins` | scanner.js:122 | a GTIN starting 8422222 gives "SAI (por GTIN)" whatever the lot, serial and raw text say |
| `ProviderClassifier.LowerCaseLotRecognised` | scanner.js:121-123 | lot "b12345" alone gives "BIOPROTECE (por Lote)" |
| `ProviderClassifier.TextRecognised` | scanner.js:125 | raw text "lote sai" with no fields gives "SAI (por texto)" |
| `ScriptParser.Split` | script.js:14 | `split` on one character yields at least one piece, none holding the separator, and a single piece exactly when the separator is absent |
| `ScriptParser.SplitJoin` | script.js:14 | joining the pieces of a split with the separator gives the text back |
| `ScriptParser.JoinSplit` | script.js:14 | splitting a join of separator-free pieces gives the pieces back |
| `ScriptParser.RunEnd` | script.js:14 | the greedy `[^\d\x1D]+` run stops at the first digit, GS or end of text |
| `ScriptParser.MatchAll` | script.js:14 | every global match is two digits then at least one non-digit non-GS character, and there are none exactly when no position starts a match |
| `ScriptParser.FirstMatchLeftmostLongest` | script.js:14 | the first match starts at the leftmost position where a match can start and extends as far as the run goes |
| `ScriptParser.Collect` | script.js:16-22 | the loop over segments stores only the five kept codes |
| `ScriptParser.CollectLastWins` | script.js:16-22 | a code is stored exactly when it is kept and some segment carries it, with the value of the last such segment |
| `ScriptParser.ParseGS1` | script.js:12-25 | the keys are always among 01, 10, 17, 21 and 22 |
| `ScriptParser.SeparatedSegments` | script.js:14 | with a GS in the text, there are at least two segments, none holding a GS, and they join back to the text |
| `ScriptParser.TrimKeepsNoDigits` | script.js:18 | trimming a digit-free string leaves it digit-free |
| `ScriptParser.UnseparatedValuesHaveNoDigits` | script.js:14-21 | without a GS, every stored value is free of digits |
| `ScriptParser.NoMatchNoFields` | script.js:14 | without a GS and without any match, the result is empty |
| `ScriptParser.LaterSegmentWins` | script.js:16-22 | a later segment with the same kept code overwrites the earlier value with its trimmed remainder |
| `ScriptParser.ValidateFields` | script.js:27-47 | only a non-empty 17 changes, by exactly one appended note; " (Formato inválido)" exactly when not six digits; " (¡Vencido!)" exactly when six digits and past; a six-digit date not yet past gets exactly the ` (Vence: d/m/yyyy)` note |
| `ScriptParser.ScriptYearIs20YY` | script.js:31 | the year is 2000 + YY, and it prints as four digits that read back as that number |
| `ScriptParser.ExpiryNoteReadsBack` | script.js:32-40 | the not-yet-expired note is ` (Vence: d/m/yyyy)`, with d and m reading back as the input's day and month digits, written without padding (one digit, or no leading zero), and yyyy as 2000 + YY |
| `ScanLog.IsDuplicate` | script.js:80-86 | true exactly when some stored row has the same 01, 10 and 21 values, missing matching missing (so an empty log gives false) |
| `ScanLog.IdentityIgnoresDateAndCode` | script.js:80-86 | the comparison ignores 17 and 22, and a row without the three fields matches another row without them |
| `ScanLog.Record` | script.js:93-98 | the old log stays as it is; the row is appended at the end exactly when no stored row shares its identity |
| `ScanLog.RecordPreservesUnique` | script.js:93-98 | if no two stored rows share an identity, that stays true after a scan |
| `ScanLog.RecordedIdentityPresent` | script.js:93-98 | after a scan, whether stored or refused, its identity is in the log |
| `ScanLog.ValidateKeepsIdentity` | script.js:28-45 | annotating AI 17 never changes 01, 10 or 21 |
| `ScanLog.RescanIsRefused` | script.js:88-98 | scanning the same text twice leaves the log as after the first scan, whatever the clock says the second time |
| `ScanLog.Remove` | script.js:70 | `splice(index, 1)` shortens the log by one, keeping the rows before the index and shifting the later ones down; an index past the end changes nothing |
| `ScanLog.RemoveTakesOneRow` | script.js:70 | what goes is exactly the one row at the index (as multisets) |
| `ScanLog.RemovePreservesUnique` | script.js:70 | deleting keeps the log free of duplicates |
| `ScanLog.RemovedCanBeRescanned` | script.js:70 | in a duplicate-free log, a deleted row is no longer a duplicate, so the same scan is accepted again |

The functions that transcribe the code carry no row of their own. Each is
listed here with the lines it follows and the rows that state its
behaviour:
- `JsString.Upper` is `toUpperCase` on ASCII (scanner.js:125):
  `JsString.UpperIdempotent`, `JsString.UpperChangesOnlyLowercase`.
- `JsString.DigitsValue`, `JsString.NatToString` and `JsString.Pad2` are
  `parseInt`, `toString` and `padStart(2, '0')` (scanner.js:52-54,
  scanner.js:64, script.js:31-33, script.js:40): `JsString.Pad2RoundTrip`,
  `ScriptParser.ExpiryNoteReadsBack`.
- `JsString.StartsWith` and `JsString.Includes` are the string tests of
  scanner.js:122 and scanner.js:125: `ProviderClassifier.GtinPrefixWins`,
  `ProviderClassifier.TextRecognised`.
- `Gs1Dates.YymmddDate` is the digit split and century window of
  scanner.js:52-56, and `Gs1Dates.Before` the comparison of scanner.js:63:
  `Gs1Dates.WindowYear`, `Gs1Dates.FormatGS1Date`.
- `Gs1Dates.Display` is the `DD/MM/YYYY` template of scanner.js:64:
  `Gs1Dates.DisplayRoundTrip`, `Gs1Dates.FormatRoundTrip`.
- `Gs1Tokenizer.Candidate`, `Gs1Tokenizer.Accepts` and
  `Gs1Tokenizer.MatchLength` are the candidate slice, its test and the
  `len` loop of scanner.js:79-81: `Gs1Tokenizer.CandidateShape`,
  `Gs1Registry.KnownIsDescribed`, `Gs1Tokenizer.MatchFrom`,
  `Gs1Tokenizer.MatchFromLongest`, `Gs1Tokenizer.MatchFromNone`.
- `Gs1Tokenizer.ReadValue` is the fixed/variable dispatch of
  scanner.js:83-91: `Gs1Tokenizer.ReadToken`, `Gs1Tokenizer.StepFixed`,
  `Gs1Tokenizer.StepVariable`, `Gs1Tokenizer.ReadKnownFixed`,
  `Gs1Tokenizer.ReadKnownVariable`.
- `Gs1Tokenizer.Encode` and `Gs1Tokenizer.Separator` build the input a
  GS1 encoder writes; they are not part of the code and serve only to state
  `Gs1Tokenizer.RoundTrip`.
- `Gs1Tokenizer.Scan` is the `while` loop of scanner.js:77-96:
  `Gs1Tokenizer.ScanKeys`, `Gs1Tokenizer.ScanStep`,
  `Gs1Tokenizer.ScanEncode`, `Gs1Tokenizer.RepeatedAiOverwrites`.
- `Gs1Tokenizer.ExpiredValue` is the `isExpired` value, true, false or
  null, stored at scanner.js:98: `Gs1Tokenizer.Interpret`.
- `ProviderClassifier.Field` is the truthiness test on `parsedGS1['01']`,
  `['10']` and `['21']` (scanner.js:122-124):
  `ProviderClassifier.FieldOfParsedCode`.
- `ProviderClassifier.Matches` is the two regular expressions of
  scanner.js:121: `ProviderClassifier.MatchesIgnoresCase`,
  `ProviderClassifier.LowerCaseLotRecognised`.
- `ProviderClassifier.Hits` is the test each of the four loops of
  scanner.js:122-125 makes: `ProviderClassifier.FirstProvider`,
  `ProviderClassifier.FirstHit`, `ProviderClassifier.Detect`.
- `ProviderClassifier.Label` and `ProviderClassifier.RuleWord` are the
  returned templates of scanner.js:122-125:
  `ProviderClassifier.LabelIsIdentified`, `ProviderClassifier.LabelsDistinct`.
- `ScriptParser.Segments` is the split-or-match choice of script.js:14:
  `ScriptParser.SeparatedSegments`,
  `ScriptParser.UnseparatedValuesHaveNoDigits`,
  `ScriptParser.NoMatchNoFields`.
- `ScriptParser.Code` and `ScriptParser.FieldValue` are the two slices of
  script.js:17-18: `ScriptParser.CollectLastWins`,
  `ScriptParser.LaterSegmentWins`.
- `ScriptParser.ScriptYear` is `parseInt('20' + …)` of script.js:31:
  `ScriptParser.ScriptYearIs20YY`.
- `ScriptParser.ExpiryNote` is the two suffixes of script.js:38-40:
  `ScriptParser.ExpiryNoteReadsBack`, `ScriptParser.ValidateFields`.
- `ScanLog.Get` and `ScanLog.IdentityOf` are the property reads of
  script.js:82-84, a missing key read as `undefined`:
  `ScanLog.IsDuplicate`, `ScanLog.IdentityIgnoresDateAndCode`.
- `ScanLog.OnScan` is `onScanSuccess` (script.js:88-98) without its I/O:
  `ScanLog.RescanIsRefused`, `ScanLog.ValidateKeepsIdentity`,
  `ScanLog.Record`.

## Left out

- service-worker.js: cache and fetch plumbing, asynchronous and I/O only.
- The camera, the DOM, and the user interface:
  - scanner.js:104-116 and scanner.js:130 onward;
  - script.js:1-10, script.js:49-78 and script.js:103 onward;
  - this covers `displayParsedData`, `renderTable`, CSV export, `alert`,
    and the `localStorage` reads and writes.
  - The log is a plain sequence passed in and returned.
- The wall clock:
  - `new Date()` in scanner.js is the `Clock` parameter.
  - In script.js, the local-time `Date` built from the digits (which
    normalises out-of-range months and days) and its comparison with the
    current time (script.js:34-37) are the boolean `isPast`.
  - The `!isNaN(date)` test (script.js:35) always passes for the integer
    arguments the code gives, so it is not modelled as a branch.
- Gs1Registry.Description: a name `gs1AIDescriptions` inherits from
  `Object.prototype`, such as "constructor" or "toString", passes the
  truthiness test of scanner.js:43 and returns the inherited property; the
  model gives "Desconocido" for it. The only caller (scanner.js:109-111)
  skips the suffixed keys and passes the rest of the parsed result's keys,
  which are all digits (`Gs1Tokenizer.ParseGS1Data`), never such a name.
- The 310d numeric post-pass (scanner.js:99): it uses floating-point
  division and `toFixed`. `Gs1Registry.KnownIsNoFamily` shows it can never
  fire on a key the tokenizer produces.
- The `catch` of `formatGS1Date` (scanner.js:67): nothing in the `try`
  block throws for the values that reach it.
- `console.warn` on an unknown AI (scanner.js:95): the loop simply stops.
- Lengths and positions are counted in characters, not in UTF-16 code
  units as `substring`, `length` and `indexOf` count them (scanner.js:80,
  scanner.js:85, scanner.js:88). Input holding a character outside the
  Basic Multilingual Plane therefore decodes differently: for "01", an
  emoji and 13 digits, JavaScript takes the emoji and 12 digits as the
  14-unit value of AI 01, while `Gs1Tokenizer.ReadFixed` takes the emoji
  and all 13 digits.
- JsString.Upper: only ASCII letters are folded. JavaScript's `toUpperCase`
  in the raw-text check (scanner.js:125) also maps other characters, such
  as `ß` to `SS` and `ı` to `I`. Such a text could match a provider name
  that the model misses. The two `/i` patterns are exact, because
  non-Unicode case-insensitive regular expressions never fold non-ASCII
  characters onto ASCII ones.
- ProviderClassifier.Field: only string values are considered. The
  scanner's parser only ever stores strings under 01, 10 and 21
  (`ProviderClassifier.FieldOfParsedCode`).
- The iteration order of JavaScript object keys is not modelled: fields are
  maps. Neither post-pass depends on the order.
- `splice` with a negative index counts from the end; the delete button
  only passes the row's own index, which is never negative.
- Gs1Tokenizer.ParseGS1Data: its own contract covers only the empty input
  and the key shapes. The value-level behaviour is stated over `Scan` and
  `Interpret` by the lemmas above.

## What the code does not do

The model follows the code in each of these points:
- scanner.js:77-96 has no separator normalisation: control characters
  other than FNC1 are read as data.
- scanner.js:88-90 has no look-ahead for the next AI: a variable-length
  value runs to the end of input when no FNC1 follows (scanner.js:90).
- scanner.js:95 stores nothing for text it cannot parse: the loop stops,
  and there is no plain-text pseudo-key.
- scanner.js:119-127 has no step that looks at diagnostic AIs: the
  classifier checks 01, 10, 21 and the raw text only.
- script.js:98 stores the parsed fields alone, with no provider, raw text
  or timestamp.
- script.js:81-85 counts a row as a duplicate only when 01, 10 and 21 are
  all equal under `===`, so a missing value equals only a missing value.
- scanner.js:79-90 reads a 310d weight code such as 3102 as AI 310
  followed by a variable-length value (`Gs1Tokenizer.WeightCodeReadAs310`);
  it is not decoded as a decimal weight.
