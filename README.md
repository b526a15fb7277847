# Field validators of the Radius data challenge, in Dafny

`validate.py` checks the fields of business-directory records. It has three parts:

- **The NAICS category-code set.** It is built from a list of raw tokens. Each token with a `-` is a range such as `31-33`. The range is replaced by the codes it stands for.
- **Validators for seven fields.** Each `is_valid_*` predicate answers a `bool`. Five of them (name, address, phone, category code and revenue) have a `find_bad_*` twin that returns the offending value, or `None`.
- **The `is_valid` registry.** It maps the seven field names to their predicates.

The project has these modules:

| module | file | what it holds |
|---|---|---|
| `Wrappers` | `wrappers.dfy` | `Option` and `Result` |
| `Chars` | `chars.dfy` | ASCII stand-ins for `str.isnumeric`, `str.lower`, `str(int)`, `int(str)` and the substring test `w in s` |
| `Pattern` | `pattern.dfy` | a prefix-anchored recogniser for the three regular expressions, which is what `re.match` does |
| `CategoryCodes` | `category_codes.dfy` | the range-expansion loop of lines 19-27 |
| `Validate` | `validate.dfy` | the validators and the registry |

**How a pandas cell is modelled.** `Validate.Value` has four cases:

- `Missing`: `pd.isnull` is true (`None` or NaN).
- `Text(s)`: a `str`.
- `Int(i)`: an `int`.
- `Other(text)`: any other non-null value. `text` is what `str(val)` prints.

**Imperative parts.**

- **The category-code loop** mutates the list it iterates over. `CategoryCodes.LoadCategoryCodes` models it as a `while` loop over an index, proved against the recursive specification `CategoryCodes.Scan`. Two Python behaviours are reproduced:
  - `+=` extends the list in place.
  - `remove` drops the first occurrence, so the element that moves into the current slot is never visited.
- **The two category-code checks** are `while True` loops that cut off the last character. They are the methods `IsValidCatcode` and `FindBadCatcode`, proved against the predicates `CatcodeValid` and `CatcodeBad`.
- **The registry lookup** is `Validate.Check`. A name that is not registered raises `KeyError`.

**Where the code does something other than a reader would expect, the model follows the code:**

- **Formatted phone numbers.** The comment at validate.py:108 says the pattern is for the `(123) 456-7890` format, so one would expect `"(415) 555-1234"` to be valid. The code rejects every text that is not exactly ten digits (see Findings).
- **Category-code prefixes.** One would expect the cutting at validate.py:168-172 to stop at three characters. `is_valid_catcode` looks up the two-character prefix too, because its membership test (line 169) comes before the length test (line 171).
- **What `find_bad_catcode` tries.** One would expect it to try the same prefixes as `is_valid_catcode`. It tries every prefix from one character short of the full text down to two characters (validate.py:154-160). It does not start from the first six characters.
- **Validators that raise.** One would expect a predicate to answer `True` or `False` on every cell. `is_valid_phone` raises `TypeError` on a value that is neither `str` nor `int`, and an unknown registry key raises `KeyError`.

## Model

| member | source | states |
|---|---|---|
| `CategoryCodes.ParseRangeRoundTrip` | validate.py:20-24 | a token `LL-HH...` reads back as the bounds `LL` and `HH`, whatever follows the fifth character |
| `CategoryCodes.ExpansionMembers` | validate.py:25 | one range's expansion is exactly `str(k)` for `lo <= k <= hi`, and none of these codes contains `-` |
| `CategoryCodes.RemoveFirstSplit` | validate.py:26 | `list.remove` splits the list at the FIRST occurrence of the token: the list is what comes before it followed by what comes after it |
| `CategoryCodes.RemoveFirstFacts` | validate.py:26 | `list.remove` drops one copy of the token and keeps every other element; elements before the first occurrence keep their places and everything after it shifts one place left |
| `CategoryCodes.ExpandStepShrinks` | validate.py:21-26 | expanding a range token and removing it leaves exactly one range token fewer, so the traversal ends |
| `CategoryCodes.LoadCategoryCodes` | validate.py:19-27 | the loop's result is the set of the list `Scan` leaves; tokens without `-` are never lost; a failure names a range token of the input whose `dd-dd` match fails; without adjacent range tokens the result is the intended set |
| `CategoryCodes.ExpandAllFacts` | validate.py:21-27 | expanding each token independently fails exactly on a malformed range token and otherwise yields exactly the codes the range tokens stand for |
| `CategoryCodes.ExpandedCodes` | validate.py:19-27 | the intended set: every token without `-` plus every code a range stands for; it fails exactly when some range does not parse; no range token is left |
| `CategoryCodes.ScanInvariant` | validate.py:21-26 | when no two range tokens are adjacent, the final list plus the range tokens still ahead of the cursor equals, as a multiset, the current list plus their expansion; the traversal fails exactly when independent expansion does |
| `CategoryCodes.ScanAgreesWithoutAdjacentRanges` | validate.py:21-27 | when no two range tokens are adjacent, the traversal builds exactly the intended set |
| `CategoryCodes.AdjacentRangeLeftRaw` | validate.py:21-26 | for `["01-02", "03-04"]` the traversal skips the second range, which stays in the set unexpanded |
| `CategoryCodes.AdjacentRangeIntended` | validate.py:19-27 | for the same tokens the intended set is `{"1", "2", "3", "4"}` |
| `Chars.TenCharacterInt` | validate.py:131-139 | `len(str(i)) == 10` exactly for ten-digit numbers and for minus nine-digit numbers |
| `Validate.Str` | validate.py:150 | `str(val)` is the text itself for a `str`; for an `int` it is decimal digits, after a `-` when negative, that `int()` reads back as the number |
| `Validate.NameDiagnostic` | validate.py:46-64 | null: `find_bad_name` gives None and `is_valid_name` gives False; any other value is returned by `find_bad_name` exactly when `is_valid_name` rejects it |
| `Validate.NameRejected` | validate.py:44-64 | the only rejected names are `" "` and four-letter spellings of `none` or `null` in any case |
| `Validate.AddressDiagnostic` | validate.py:71-93 | null: `find_bad_address` gives None and `is_valid_address` gives False; any other value is returned exactly when `is_valid_address` rejects it |
| `Validate.AddressFirstCharacter` | validate.py:89-93 | two non-empty addresses with the same first character are judged alike |
| `Validate.TimeOccurrence` | validate.py:98-104 | a time in business is valid exactly when `year` occurs at some position of the text |
| `Validate.TimeSurrounded` | validate.py:104 | text added before or after a valid time in business keeps it valid |
| `Validate.TimeCaseSensitive` | validate.py:104 | `5 years` is valid and `5 YEARS` is not |
| `Validate.PhoneRequired` | validate.py:109 | the phone pattern needs exactly ten mandatory characters, all digits |
| `Validate.PhoneTextOutcome` | validate.py:126-142 | a phone text is valid exactly when it is ten digits; no formatted number is accepted |
| `Validate.PhoneIntOutcome` | validate.py:130-142 | an `int` phone is valid exactly when it has ten digits, or a minus sign and nine digits |
| `Validate.PhoneRaises` | validate.py:126-132 | `is_valid_phone` raises `TypeError` exactly on non-null values that are neither `int` nor `str` |
| `Validate.PhoneDiagnostic` | validate.py:113-124 | `find_bad_phone` flags every `int` and every other non-`str` value; it passes a text exactly when the text is numeric or the pattern matches it; it passes every text `is_valid_phone` accepts |
| `Validate.PhoneStandardFormat` | validate.py:109 | every text written `(ddd) ddd-dddd` matches the phone pattern |
| `Validate.PhoneFormattedRejected` | validate.py:126-142 | `(415) 555-1234` is rejected as written and accepted by the corrected reading |
| `Validate.PhoneIntendedAgrees` | validate.py:133-136 | corrected, a non-numeric text is valid exactly when `find_bad_phone` passes it; on every other value the corrected reading agrees with the code |
| `Validate.PhoneTooShort` | validate.py:109-142 | a text under ten characters never matches; if it is not numeric it is invalid both as written and corrected |
| `Validate.PhoneMissingAreaCode` | validate.py:113-142 | `555-1234` is invalid both ways and is flagged by `find_bad_phone` |
| `Validate.HeadcountShape` | validate.py:178-190 | the headcount pattern matches exactly when the text starts with a run of digits followed by ` to ` and a digit |
| `Validate.HeadcountExtends` | validate.py:188-190 | text after a matched headcount does not matter |
| `Validate.HeadcountExamples` | validate.py:180-192 | `1 to 10` and `Over 1,000` are valid; `10+` and an `int` are not |
| `Validate.RevenueDiagnostic` | validate.py:201-228 | null: `find_bad_revenue` gives None and `is_valid_revenue` gives False; any other value is returned exactly when `is_valid_revenue` rejects it |
| `Validate.RevenueCaseInsensitive` | validate.py:206-226 | a revenue text and its lower-case form are judged alike |
| `Validate.RevenueRequired` | validate.py:197 | the revenue pattern needs fourteen mandatory characters |
| `Validate.RevenueTooShort` | validate.py:197-227 | a text under fourteen characters is valid exactly when it is one of the special cases |
| `Validate.RevenueMillionRejected` | validate.py:197-227 | `$1 million` is invalid |
| `Validate.RevenueSpecialCase` | validate.py:199-226 | `Over $1 Billion` is valid as a special case |
| `Validate.RevenueRangeMatches` | validate.py:197 | texts of the form `$d to $d million` match the revenue pattern |
| `Validate.RevenueRangeExample` | validate.py:215-222 | `$1 to $5 million` is valid |
| `Validate.IsValidCatcode` | validate.py:163-174 | null is invalid; otherwise the value is valid exactly when the first six characters of `str(val)`, or one of their prefixes of two or more characters, is a known code |
| `Validate.FindBadCatcode` | validate.py:146-161 | null gives None; a text shorter than eight characters is returned; a longer one is returned exactly when no prefix of length two to one short of its own is a known code |
| `Validate.CatcodeDiagnostic` | validate.py:146-174 | for values of eight characters or more, what `is_valid_catcode` accepts `find_bad_catcode` does not flag |
| `Validate.CatcodeSevenCharacters` | validate.py:146-174 | the converse fails: a known seven-character prefix satisfies `find_bad_catcode` but not `is_valid_catcode` |
| `Validate.CatcodeNullAndShort` | validate.py:146-152 | null is never valid and never flagged; a value under eight characters is always flagged |
| `Validate.CatcodeTwoCharacterPrefix` | validate.py:168-173 | a known two-character prefix makes any value of two or more characters valid |
| `Validate.CatcodeFirstSix` | validate.py:167 | values whose first six characters agree are judged alike |
| `Validate.CatcodeExample` | validate.py:163-174 | `311811`, as text or as an `int`, is valid when `3118` is a known code |
| `Validate.Check` | validate.py:232-240 | a registered field name answers that field's validator's outcome (category codes through the loop); any other name raises `KeyError` |
| `Validate.RegistryKeys` | validate.py:232-240 | the registry's keys are exactly the seven field names; `city`, `state` and `zip` are not among them |
| `Validate.RegistrySize` | validate.py:232-240 | the registry has seven entries |
| `Validate.NullAlwaysInvalid` | validate.py:58-217 | every registered validator returns False on null |
| `Validate.OnlyPhoneRaises` | validate.py:126-240 | a registered validator raises exactly when it is the phone validator and the value is neither `int` nor `str` |
| `Validate.TextOnlyFields` | validate.py:56-228 | name, address, time, headcount and revenue reject every value that is not a `str` |

## Left out

- **Data loading.** The CSV and GeoNames reads (validate.py:9-16, 19) are file I/O. The NAICS tokens are an input sequence, and the GeoNames table is not part of this model because no validator reads it.
- **`radius.py`.** It loads JSON and prints counts. It is not part of this model.
- **The address stemmer.** `address_stemmer_re` (validate.py:68-69) is never used.
- **Case and digits are ASCII only.** `str.lower` and `str.isnumeric` are modelled on ASCII, and `\s` is ASCII whitespace. Unicode digits and case mappings are not modelled.
- **Floats and NaN.** `pd.isnull` is the `Missing` case. Any other float is `Other`: its `str` form is carried as an uninterpreted string.
- **Capture groups.** They are not modelled. The as-written phone check never reads them, and the corrected phone check only relies on the three groups holding ten digits.
- **The special-case loops.** The `for rsc in revenue_special_cases` loops (validate.py:208-210, 224-226) are a list search. They are modelled as a membership test.
- **The module global `category_codes`.** `IsValidCatcode`, `FindBadCatcode` and `Check` take the code set as a parameter `codes`. The model does not tie that parameter to the result of `LoadCategoryCodes`, so every property of the two checks holds for any code set.
- **Range tokens.** `int` on the two captured digit pairs is `DecimalValue`. The `AttributeError` raised when a range token does not match (`m.groups()` on `None`, line 24) is the `Err` carrying that token.

## Findings

| source | as written | input that shows it | evidently intended | confidence | as-written member | corrected member |
|---|---|---|---|---|---|---|
| validate.py:21-26 | the loop extends and removes from the list it is iterating over, so the element that shifts into a removed range token's slot is never visited | `["01-02", "03-04"]` gives `{"03-04", "1", "2"}` | every range token is expanded: `{"1", "2", "3", "4"}` | medium, not executed | `CategoryCodes.AdjacentRangeLeftRaw` | `CategoryCodes.ExpandedCodes` |
| validate.py:135-136 | the join of the captured digits runs only when `m.groups()` has four entries, but the pattern has three groups, so a matched formatted number keeps its own length and fails the ten-character test | `(415) 555-1234` is rejected | the three groups are joined into ten digits and the number is valid | high, not executed | `Validate.PhoneFormattedRejected` | `Validate.PhoneIntendedAgrees` |

- **First finding.**
  - Two range tokens must be adjacent for it to show. `LoadCategoryCodes` and `ScanAgreesWithoutAdjacentRanges` state when it does not happen.
  - A range that is the last token of the list also skips its own first code. That code is still in the list, so the set is unaffected.
- **Second finding.** The registry (`Validate.Check`) dispatches to `IsValidPhone`, the validator as written, because that is what the program runs. `IsValidPhoneIntended` is the corrected validator.
