# Scussel.StringExtensions in Dafny

A model of `Scussel.StringExtensions.Extensions`. This is a static C# class of string extension
methods: capitalising the first letter, testing whether any of several strings occurs in a text,
extracting the first word, extracting the digits, Jenkins' one-at-a-time hash, taking the left part,
and removing diacritics.

A .NET `string` is a `CsString`, which is `Option<seq<CodeUnit>>`. `None` is `null`, and a
`CodeUnit` is a UTF-16 code unit, an integer in 0..65535. Each method handles `null` in one of
two ways. Some methods pass it through as a value (`None` in, `None` out, or `""` for
`GetNumbers`, or `false` for `Contains`). The others throw on it in .NET. The model does not
model those exceptions: it rules the throwing inputs out with a precondition. These are
`Hash(null)`, `Left` with a negative size on a non-null text, and `Contains` when `Any` would
reach a null option or a null options list.

Modules:

- `CsTypes` (cs_types.dfy): `Option`, `CodeUnit`, `Byte`, `Int32`, `CsString`, `IntMaxValue`.
- `UnicodeTables` (unicode_tables.dfy) holds the character classes:
  - the whitespace class `\s` of .NET regular expressions, complete;
  - `char.IsDigit` and `ToUpper`, exact on Latin-1;
  - the `UnicodeCategory` and `NormalizationForm` enumerations.
- `Sequences` (sequences.dfy):
  - `Filter`, the order-preserving filter behind LINQ `Where` and the `StringBuilder` loop, with its algebra;
  - `Occurs`, ordinal substring search, proved equal to the declarative `IsSubstring`.
- `Utf16` (utf16.dfy) is `Encoding.Unicode.GetBytes`:
  - surrogate pairs and well-formed UTF-16;
  - the encoder's replacement of every unpaired surrogate by U+FFFD (bytes FD FF);
  - the little-endian byte layout, with an inverse that shows the layout loses nothing.
- `OneAtATime` (one_at_a_time.dfy) is the hash as a specification:
  - the per-byte step and the fold `Accumulate`;
  - the final avalanche;
  - `HashOf`.
  Every operation of the hash is 32-bit wrapping `bv32` arithmetic.
- `Extensions` (extensions.dfy): the extension methods themselves. `Hash` and `RemoveDiacritics`
  are imperative methods with the source's loops. The others are functions. It also holds a
  small `StringBuilder` class.
- `ReferenceValues` (reference_values.dfy): the unit tests' expected values, derived as lemmas.
  The test strings are written as code-unit literals, each with its text in a comment.

In `Extensions.Hash`, the body of the `foreach` loop is one call to `OneAtATime.Step`. That is the
three compound assignments `uiHash += letter; uiHash += uiHash << 10; uiHash ^= uiHash >> 6`. The
three mixing statements after the loop are calls to `AddShiftedLeft` (`h += h << n`) and
`XorShiftedRight` (`h ^= h >> n`). The method is proved equal to `HashOf`, the fold over the byte
sequence.

`RemoveDiacritics` takes `string.Normalize` and `CharUnicodeInfo.GetUnicodeCategory` as function
parameters (`normalize`, `category`). Every property proved about it therefore holds whatever
normalisation and category data are in use. The filter loop is modelled exactly, appending to the
`StringBuilder` one code unit at a time.

Where the library's doc comments and its code disagree, the model follows the code:

- The doc comment of `Contains` says "equals". The code tests substring containment.
- The doc comment of `GetNumbers` says a null text gives null. `new string(null)` gives `""`.

Further choices the code settles:

- `CapitalizeFirstLetter` calls the culture-sensitive `string.ToUpper()`. The model uses one fixed
  mapping, Unicode's simple upper-case mapping on Latin-1.
- `Substring` throws on a negative size, so `Left` has a precondition against it.
- An empty options list gives `false` in `Contains`.
- `Encoding.Unicode` never throws on an unpaired surrogate: it writes U+FFFD in its place, so
  `Hash` is defined on every non-null string. `string.Normalize` throws on one, so
  `RemoveDiacritics` requires well-formed UTF-16.

## Model

| member | source | states |
|---|---|---|
| `Extensions.CapitalizeFirstLetter` | Scussel.StringExtensions/Extensions.cs:22-27 | null gives null; otherwise the length is kept, the first code unit is `ToUpper` of the original first one and the tail is untouched (so `""` gives `""`) |
| `Extensions.CapitalizeFirstLetterIdempotent` | Scussel.StringExtensions/Extensions.cs:22-27 | capitalising twice equals capitalising once, for every text including null and empty |
| `UnicodeTables.ToUpper` | Scussel.StringExtensions/Extensions.cs:26 | `ToUpper()` of one character: Unicode's simple upper-case mapping, exact on Latin-1 and the identity elsewhere; digits and whitespace map to themselves and a..z to A..Z |
| `UnicodeTables.ToUpperIdempotent` | Scussel.StringExtensions/Extensions.cs:26 | the upper-case mapping maps every upper-cased code unit to itself |
| `Extensions.Contains` | Scussel.StringExtensions/Extensions.cs:35-39 | result is true iff the text is non-null and some non-null option is a substring of it; callable exactly when .NET would not throw (options non-null, no null option reached before a match) |
| `Extensions.AnyOccurs` | Scussel.StringExtensions/Extensions.cs:38 | the short-circuiting `Any` is true iff some option is a substring of the text |
| `Extensions.ContainsEdgeCases` | Scussel.StringExtensions/Extensions.cs:35-39 | an empty options list gives false; an empty-string option makes any non-null text contain the options |
| `Sequences.Occurs` | Scussel.StringExtensions/Extensions.cs:38 | ordinal `string.Contains` as a left-to-right search: the pattern is a prefix of the text or occurs in its tail |
| `Extensions.ReachesNullOption` | Scussel.StringExtensions/Extensions.cs:38 | the throwing case of `Any`: a null option is met before any earlier option matched |
| `Sequences.OccursIsSubstring` | Scussel.StringExtensions/Extensions.cs:38 | the left-to-right ordinal search succeeds iff the pattern occurs at some position of the text |
| `UnicodeTables.IsWhiteSpace` | Scussel.StringExtensions/Extensions.cs:54 | the regex class `\s`: TAB..CR, NEXT LINE and the current Unicode separators (Zs, Zl, Zp) |
| `Extensions.IsFirstWordAt` | Scussel.StringExtensions/Extensions.cs:54 | `s[i..j]` is the match of `([^\s]+)`: only whitespace before it, none in it, whitespace or the end after it; an empty span only at the end |
| `Extensions.GetFirstWord` | Scussel.StringExtensions/Extensions.cs:51-55 | null gives null; otherwise the result is a slice `s[i..j]` with only whitespace before it, no whitespace in it, whitespace or the end after it; it is empty iff the text is all whitespace |
| `Extensions.SkipWhiteSpace` | Scussel.StringExtensions/Extensions.cs:54 | returns the first index at or after `i` that is not whitespace (or the end), everything skipped being whitespace |
| `Extensions.SkipWord` | Scussel.StringExtensions/Extensions.cs:54 | returns the end of the maximal non-whitespace run starting at `i` |
| `Extensions.FirstWordUnique` | Scussel.StringExtensions/Extensions.cs:54 | the first maximal non-whitespace run (the regex match) is unique |
| `UnicodeTables.IsDigit` | Scussel.StringExtensions/Extensions.cs:63 | `char.IsDigit`, as the ASCII digits 0..9 only, which are the decimal digits of Latin-1 |
| `Extensions.GetNumbers` | Scussel.StringExtensions/Extensions.cs:62-63 | null gives `""`; every result code unit is a digit; the result is no longer than the text |
| `Extensions.GetNumbersCounts` | Scussel.StringExtensions/Extensions.cs:62-63 | every digit occurs in the result exactly as often as in the text, every non-digit zero times |
| `Extensions.GetNumbersConcat` | Scussel.StringExtensions/Extensions.cs:62-63 | order is preserved: the digits of `a + b` are those of `a` followed by those of `b` |
| `Extensions.GetNumbersIdempotent` | Scussel.StringExtensions/Extensions.cs:62-63 | extracting the digits of the result changes nothing |
| `Sequences.Filter` | Scussel.StringExtensions/Extensions.cs:63 | the filtered sequence is no longer than the input and every element satisfies the predicate |
| `Sequences.FilterConcat` | Scussel.StringExtensions/Extensions.cs:63 | filtering distributes over concatenation (order preservation) |
| `Sequences.FilterHead` | Scussel.StringExtensions/Extensions.cs:63 | filtering a non-empty sequence keeps or drops its head, then filters its tail |
| `Sequences.FilterKeepsAll` | Scussel.StringExtensions/Extensions.cs:63 | a sequence all of whose elements satisfy the predicate is returned unchanged |
| `Sequences.FilterKeepsNone` | Scussel.StringExtensions/Extensions.cs:63 | a sequence none of whose elements satisfy the predicate filters to empty |
| `Sequences.FilterMultiset` | Scussel.StringExtensions/Extensions.cs:63 | each kept value occurs as often as in the input, each dropped value never |
| `Sequences.FilterMembership` | Scussel.StringExtensions/Extensions.cs:63 | a value is in the result iff it is in the input and satisfies the predicate |
| `Sequences.FilterIdempotent` | Scussel.StringExtensions/Extensions.cs:63 | filtering twice equals filtering once |
| `Extensions.Hash` | Scussel.StringExtensions/Extensions.cs:71-86 | the imperative loop over the bytes of `Encoding.Unicode.GetBytes` with the final mixing returns exactly `HashOf(text)`, a value in 0..2147483646; a null text is excluded (GetBytes throws) |
| `OneAtATime.HashOf` | Scussel.StringExtensions/Extensions.cs:75-85 | the hash of any string, lone surrogates included, lies in 0..int.MaxValue-1 |
| `OneAtATime.AddShiftedLeft` | Scussel.StringExtensions/Extensions.cs:78 | `h += h << n` with `uint` wrap-around (also lines 82 and 84) |
| `OneAtATime.XorShiftedRight` | Scussel.StringExtensions/Extensions.cs:79 | `h ^= h >> n` with the logical shift of `uint` (also line 83) |
| `OneAtATime.Step` | Scussel.StringExtensions/Extensions.cs:77-79 | the loop body: add the byte, then mix with shifts 10 and 6 |
| `OneAtATime.Accumulate` | Scussel.StringExtensions/Extensions.cs:75-80 | the `foreach` as a fold of `Step` over the bytes from a given accumulator |
| `OneAtATime.Finalize` | Scussel.StringExtensions/Extensions.cs:82-84 | the three statements after the loop, shifts 3, 11 and 15 |
| `OneAtATime.AccumulateConcat` | Scussel.StringExtensions/Extensions.cs:75-80 | folding `a + b` equals folding `b` from the accumulator `a` leaves |
| `OneAtATime.HashOfSuffix` | Scussel.StringExtensions/Extensions.cs:75-85 | two strings leaving the same accumulator hash alike after any common suffix, unless the suffix completes a surrogate pair left open at the end of either |
| `Utf16.IsUnpairedAt` | Scussel.StringExtensions/Extensions.cs:75 | a high surrogate without a low one after it, or a low surrogate without a high one before it |
| `Utf16.IsWellFormed` | Scussel.StringExtensions/Extensions.cs:75 | well-formed UTF-16: no code unit is an unpaired surrogate |
| `Utf16.ReplaceUnpairedSurrogates` | Scussel.StringExtensions/Extensions.cs:75 | the encoder's replacement fallback scan keeps the length |
| `Utf16.ReplaceUnpairedSurrogatesAt` | Scussel.StringExtensions/Extensions.cs:75 | the scan replaces exactly the unpaired surrogates by U+FFFD and keeps every other code unit |
| `Utf16.WellFormedIffUnchanged` | Scussel.StringExtensions/Extensions.cs:75 | the scan leaves a string unchanged iff the string is well-formed |
| `Utf16.ReplaceUnpairedSurrogatesIsWellFormed` | Scussel.StringExtensions/Extensions.cs:75 | the scan's output is always well-formed |
| `Utf16.ReplaceUnpairedSurrogatesIdempotent` | Scussel.StringExtensions/Extensions.cs:75 | scanning twice equals scanning once |
| `Utf16.WellFormedConcat` | Scussel.StringExtensions/Extensions.cs:75 | two well-formed strings joined are well-formed |
| `Utf16.SplitsPair` | Scussel.StringExtensions/Extensions.cs:75 | the first part ends in a high surrogate and the second starts with a low one |
| `Utf16.ReplaceUnpairedSurrogatesConcat` | Scussel.StringExtensions/Extensions.cs:75 | the scan of `a + b` is the scans of `a` and `b` joined iff no pair is split at the seam |
| `Utf16.Utf16LeBytes` | Scussel.StringExtensions/Extensions.cs:75 | the little-endian byte layout has two bytes per code unit |
| `Utf16.Utf16LeDecode` | Scussel.StringExtensions/Extensions.cs:75 | a proof device, not part of the source: pairs bytes back into code units, one per two bytes |
| `Utf16.Utf16LeRoundTrip` | Scussel.StringExtensions/Extensions.cs:75 | pairing the layout's bytes back recovers every code unit, so the layout is injective |
| `Utf16.Utf16LeBytesAt` | Scussel.StringExtensions/Extensions.cs:75 | byte `2k` of the layout is the low and byte `2k+1` the high byte of code unit `k` |
| `Utf16.Utf16LeBytesConcat` | Scussel.StringExtensions/Extensions.cs:75 | the layout of a concatenation is the concatenated layouts |
| `Utf16.GetBytes` | Scussel.StringExtensions/Extensions.cs:75 | `Encoding.Unicode.GetBytes` gives two bytes per code unit |
| `Utf16.GetBytesAt` | Scussel.StringExtensions/Extensions.cs:75 | bytes `2k` and `2k+1` are the halves of code unit `k`, or FD and FF when that code unit is an unpaired surrogate |
| `Utf16.GetBytesRoundTrip` | Scussel.StringExtensions/Extensions.cs:75 | the bytes pair back into the string with its unpaired surrogates replaced, into the string itself when it is well-formed |
| `Utf16.GetBytesInjective` | Scussel.StringExtensions/Extensions.cs:75 | two well-formed strings with the same encoding are equal |
| `Utf16.GetBytesConcat` | Scussel.StringExtensions/Extensions.cs:75 | the encoding of two strings joined is the concatenation of their encodings when no pair is split at the seam |
| `ReferenceValues.FooHasNoSurrogates` | Scussel.StringExtensionsTests/TestsStringExtensions.cs:76-80 | the encoder copies "foo" unchanged |
| `ReferenceValues.HashOfFoo` | Scussel.StringExtensionsTests/TestsStringExtensions.cs:76-80 | "foo" encodes to 66 00 6F 00 6F 00 and hashes to 1628994470 |
| `ReferenceValues.HashOfLoneSurrogate` | Scussel.StringExtensions/Extensions.cs:75-85 | "\uD800" encodes to FD FF and hashes to 1837416090 |
| `Extensions.Left` | Scussel.StringExtensions/Extensions.cs:98-103 | null gives null; otherwise the result is the prefix of length min(size, length), and the text itself when size is at least its length; a negative size on a non-null text is excluded (Substring throws) |
| `Extensions.LeftIdempotent` | Scussel.StringExtensions/Extensions.cs:98-103 | taking the left part of the left part with the same size changes nothing |
| `Extensions.StripNonSpacingMarks` | Scussel.StringExtensions/Extensions.cs:116-120 | no code unit of the filter's output has category NonSpacingMark, and the output is no longer than the input |
| `Extensions.StripNonSpacingMarksUnmarked` | Scussel.StringExtensions/Extensions.cs:116-120 | a decomposed text without non-spacing marks passes the filter unchanged |
| `Extensions.StripNonSpacingMarksCounts` | Scussel.StringExtensions/Extensions.cs:116-120 | every non-mark code unit is kept as often as it occurs; marks are dropped |
| `Extensions.StripNonSpacingMarksConcat` | Scussel.StringExtensions/Extensions.cs:116-120 | the filter keeps order: stripping `a + b` is stripping `a` then `b` |
| `Extensions.RemoveDiacritics` | Scussel.StringExtensions/Extensions.cs:110-123 | null gives null; a text with an unpaired surrogate is excluded (`Normalize` throws); otherwise the result is the FormC normalisation of the FormD normalisation with its non-spacing marks filtered out by the StringBuilder loop |
| `Extensions.StringBuilder.constructor` | Scussel.StringExtensions/Extensions.cs:114 | a new builder holds no code units |
| `Extensions.StringBuilder.ToString` | Scussel.StringExtensions/Extensions.cs:122 | the builder's contents as a string |
| `Extensions.StringBuilder.Append` | Scussel.StringExtensions/Extensions.cs:119 | appending adds exactly one code unit at the end of the builder's contents |
| `ReferenceValues.CapitalizeFirstLetterExamples` | Scussel.StringExtensionsTests/TestsStringExtensions.cs:11-23 | null, "", "test" → "Test", "43test abc" unchanged, "ú" → "Ú" |
| `ReferenceValues.ContainsExamples` | Scussel.StringExtensionsTests/TestsStringExtensions.cs:26-34 | a null text contains nothing; "test foo" contains one of "abc", "foo", "xyz" |
| `ReferenceValues.GetFirstWordExamples` | Scussel.StringExtensionsTests/TestsStringExtensions.cs:39-44 | null gives null and "" gives "" |
| `ReferenceValues.FirstWordIs` | Scussel.StringExtensions/Extensions.cs:54 | whenever `s[i..j]` is the first maximal non-whitespace run, it is the result |
| `ReferenceValues.GetFirstWordOfTestAbc` | Scussel.StringExtensionsTests/TestsStringExtensions.cs:41-42 | "test abc" gives "test" |
| `ReferenceValues.GetFirstWordOf43TestAbc` | Scussel.StringExtensionsTests/TestsStringExtensions.cs:45-46 | "43test abc" gives "43test" |
| `ReferenceValues.GetFirstWordOfSpaceAbc` | Scussel.StringExtensionsTests/TestsStringExtensions.cs:47-48 | " abc" gives "abc" |
| `ReferenceValues.GetNumbersExamples` | Scussel.StringExtensionsTests/TestsStringExtensions.cs:54-57 | null and "test abc" give "" |
| `ReferenceValues.GetNumbersOfPhone` | Scussel.StringExtensionsTests/TestsStringExtensions.cs:58-59 | "(51)3344-4303" gives "5133444303" |
| `ReferenceValues.GetNumbersOfA0B1C2` | Scussel.StringExtensionsTests/TestsStringExtensions.cs:60-61 | "a0b1c2" gives "012" |
| `ReferenceValues.LeftExamples` | Scussel.StringExtensionsTests/TestsStringExtensions.cs:67-72 | null gives null, "test abc" with 4 gives "test", with 40 gives the text |

## Left out

- `ReplaceFirst` (Extensions.cs:133-139) is not modelled. Its behaviour is that of the .NET case-insensitive regular-expression engine, and its search text is a pattern. Modelling it would mean modelling that engine.
- `ToInt` and `ToUshort` (Extensions.cs:146-163) are not modelled. They are thin wrappers over the culture-sensitive `int.TryParse` and `ushort.TryParse`.
- `UnicodeTables.IsDigit`: exact only on Latin-1, where the ASCII digits are the only decimal digits. The decimal digits of other scripts, which `char.IsDigit` accepts, are not in the table.
- `UnicodeTables.ToUpper`: Unicode's simple upper-case mapping on Latin-1, and the identity on every other code unit. `string.ToUpper()` uses the culture of the current thread and maps letters of all scripts. The culture dependence, such as Turkish dotted i, is not modelled.
- `UnicodeTables.IsWhiteSpace` follows the current Unicode separator categories. It does not track changes between Unicode versions, such as U+180E, which left category Zs in Unicode 6.3.
- `Extensions.RemoveDiacritics`: Unicode normalisation and the category table are parameters, not data. So the expected values " ACEGUA" and "SAO JOAO" (TestsStringExtensions.cs:146-147) are not derived.
- `Extensions.Contains`: `IEnumerable<string>` is modelled as a finite list. A lazy or infinite enumeration is not modelled.
- `Extensions.RemoveDiacritics`: the `ArgumentException` of the second `Normalize` is not modelled. It can only arise if the decomposition held an unpaired surrogate, which a real decomposition of well-formed text does not, and `GetUnicodeCategory` never calls a surrogate a non-spacing mark.
- `OneAtATime.HashOfSuffix` excludes a suffix that completes a surrogate pair. When `s` ends in a high surrogate and `t` starts with a low one, the encoder pairs them in `s + t` but replaces both in the parts, so the hash of the whole is not a function of the parts' accumulators.
- The exceptions the source throws are preconditions, not behaviour. These are `ArgumentNullException` from `GetBytes`, from `Any` on a null options list, and from `string.Contains` on a null option inside the predicate given to `Any`, `ArgumentOutOfRangeException` from `Substring`, and the `ArgumentException` of `Normalize` on an unpaired surrogate.
- Strings are sequences of UTF-16 code units, as in .NET. A surrogate pair is two code units to every method except the encoder behind `Hash`, so `CapitalizeFirstLetter` leaves a letter outside the Basic Multilingual Plane as it is.
