# Candidate filter and filter panel, in Dafny

This project models the filtering core of a small recruiting dashboard. The
dashboard shows a table of candidates: id, name, e-mail, position, status and
years of experience. Above the table sit four filter inputs.

- `filterCandidates` is the pure filter. It keeps, in their original order,
  the candidates that pass all four field tests, combined with AND.
  - Name: the query is trimmed and lower-cased, and matches any substring of
    the lower-cased name. A blank query matches everyone.
  - Position and status: exact equality, applied only when the field is
    non-empty.
  - Experience: exact numeric equality, applied only when the text is
    non-blank and `Number(...)` of it is not NaN.
- The table component holds the filter state.
  - An edit replaces one field.
  - Clearing the name also clears position and status.
  - Clearing the position also clears the status.
  - Reset restores the all-empty state.
  - The position input is disabled while the trimmed name is empty. The
    status input is disabled while the position is empty or disabled.

Files:

- `text.dfy` (module `Text`): the JavaScript string built-ins the filter uses.
  These are `trim` (the ECMAScript white-space set), `toLowerCase` (ASCII),
  `includes`, and `Number(...)` restricted to integer literals.
- `filter_candidates.dfy` (module `CandidateFilter`): the records, the four
  field tests, the filter as a recursive selection over `seq<Candidate>`, and
  its properties.
- `candidates_table.dfy` (module `CandidatesTable`): the change function
  `ChangeFilter` that specifies the state transition, the disabled flags, and
  the class `FilterPanel`. The class holds the `filters` field and the
  methods `HandleFilterChange` and `HandleReset`.
- `filter_candidates_tests.dfy` (module `FilterCandidatesTests`): the unit
  test scenarios, stated as lemmas about the four-candidate fixture.

The model follows the code. Two details that the summary above leaves
implicit:

- The experience text is trimmed only to decide whether it is blank.
  `Number` is then applied to the untrimmed text. `Number` ignores
  surrounding white space itself, so the outcome is the same.
- Clearing the name clears position and status, as the summary says, but
  only when the name is set to exactly `''`. A name of only spaces disables
  the position input yet leaves a stale position in the state, and that
  position still constrains the filter.
  `CandidatesTable.BlankNameKeepsStalePosition` shows such a state.

## Model

| member | source | states |
|---|---|---|
| Text.Trim | src/utils/filterCandidates.ts:21 | The trimmed string is no longer than the input and has no white space at either end. |
| Text.TrimIsSlice | src/utils/filterCandidates.ts:21 | The trimmed string is a contiguous slice of the input with only white space before and after it. |
| Text.TrimEmptyIff | src/utils/filterCandidates.ts:23 | The trimmed string is empty exactly when the input consists of white space only. |
| Text.TrimPadded | src/utils/filterCandidates.ts:21 | White space padding around an unpadded string is exactly what trimming strips. |
| Text.ToLower | src/utils/filterCandidates.ts:21-29 | Lower-casing keeps the length and maps each character to its ASCII lower-case form. |
| Text.ToLowerAppend | src/utils/filterCandidates.ts:29 | Lower-casing a concatenation is the concatenation of the lower-cased parts. |
| Text.IncludesIff | src/utils/filterCandidates.ts:29 | `includes` holds exactly when the query occurs at some index of the string. |
| Text.IncludesSkipPrefix | src/utils/filterCandidates.ts:29 | A prefix without the query's first character adds no occurrence of the query. |
| Text.ToNumberOfDecimal | src/utils/filterCandidates.ts:23 | `Number` of the decimal numeral of any integer gives that integer back. |
| Text.ToNumber | src/utils/filterCandidates.ts:23-25 | `Number` of blank text is 0, and `Number` gives NaN exactly when the text is not blank and its trimmed form is not an optionally signed run of one or more digits. |
| Text.ToNumberNonNumeric | src/utils/filterCandidates.ts:23-25 | Text whose first character is neither white space, a sign nor a digit converts to NaN. |
| Text.LeadingZerosValue | src/utils/filterCandidates.ts:23 | Zeros in front of a run of digits keep it a run of digits with the same value. |
| Text.ZerosNumeralValue | src/utils/filterCandidates.ts:23 | The numeral of `n` with leading zeros is a non-empty run of digits whose value is `n`. |
| Text.ToNumberOfDigits | src/utils/filterCandidates.ts:23 | `Number` of a non-empty run of digits is the value of those digits. |
| Text.ToNumberPadded | src/utils/filterCandidates.ts:23 | White space around unpadded text does not change what `Number` gives. |
| Text.ToNumberPaddedDigits | src/utils/filterCandidates.ts:23 | `Number` of a run of digits with white space around it is the value of the digits. |
| Text.ToNumberPaddedNumeral | src/utils/filterCandidates.ts:23 | `Number` of the numeral of `n` with leading zeros and white space around it is `n` (so "04" and " 4 " give 4). |
| Text.ToNumberPaddedSignedDigits | src/utils/filterCandidates.ts:23 | `Number` of a `-` or `+` followed by digits, with white space around it, is the negated or the plain value of the digits. |
| Text.ToNumberSignedNumeral | src/utils/filterCandidates.ts:23 | `Number` of a sign, leading zeros and the numeral of `n`, with white space around, is `-n` for `-` and `n` for `+` (so "-0" gives 0 and "+4" gives 4). |
| CandidateFilter.Select | src/utils/filterCandidates.ts:27-41 | `filter`: never longer than the input; every kept element satisfies the predicate; an element is kept exactly when it is in the input and satisfies the predicate. |
| CandidateFilter.FilterCandidates | src/utils/filterCandidates.ts:20-42 | Every returned candidate matches all four field tests, and a candidate is returned exactly when it is in the input and matches. |
| CandidateFilter.FilterIsSubsequence | src/utils/filterCandidates.ts:27-41 | The result is a subsequence of the input: nothing is added and relative order is kept. |
| CandidateFilter.FilterMultiplicity | src/utils/filterCandidates.ts:27-41 | A matching candidate is kept as many times as it occurs in the input; a non-matching one is dropped. |
| CandidateFilter.FilterKeepsAll | src/utils/filterCandidates.ts:27-41 | If every input candidate matches, the result is the input itself. |
| CandidateFilter.FilterExtensional | src/utils/filterCandidates.ts:27-41 | Two filter states that accept the same candidates give the same result on every input. |
| CandidateFilter.FilterIdempotent | src/utils/filterCandidates.ts:27-41 | Filtering the output again with the same filters returns it unchanged. |
| CandidateFilter.FilterTwice | src/utils/filterCandidates.ts:27-41 | Filtering by `a`, then by `b`, keeps what both accept, and the order of the two filters does not matter. |
| CandidateFilter.NoConstraintMatchesAll | src/utils/filterCandidates.ts:21-38 | A blank name, empty position and status, and a blank or unparsable experience accept every candidate. |
| CandidateFilter.FilterNoConstraint | src/utils/filterCandidates.ts:21-38 | With no active constraint the result equals the input. |
| CandidateFilter.FilterEmptyFilters | src/utils/filterCandidates.ts:21-38 | With all four fields empty the result equals the input. |
| CandidateFilter.MatchesNameIff | src/utils/filterCandidates.ts:21-29 | A blank name query accepts everyone. Otherwise a candidate matches exactly when the trimmed, lower-cased query occurs at some index of its lower-cased name. |
| CandidateFilter.NameQuery | src/utils/filterCandidates.ts:21 | The name query is empty exactly when the name text is blank, is no longer than the text, and holds no upper-case letter. |
| CandidateFilter.NameCaseInsensitive | src/utils/filterCandidates.ts:21 | Two name texts with the same trimmed lower-case form give the same result. |
| CandidateFilter.PositionOnly | src/utils/filterCandidates.ts:31-32 | With only a position chosen, a candidate is returned exactly when it is in the input and the position is empty or equals the candidate's position exactly. |
| CandidateFilter.StatusOnly | src/utils/filterCandidates.ts:34-35 | With only a status chosen, a candidate is returned exactly when it is in the input and the status is empty or equals the candidate's status exactly. |
| CandidateFilter.ExperienceQuery | src/utils/filterCandidates.ts:23 | The experience query is absent exactly when the experience text is blank; otherwise it is `Number` of the text. |
| CandidateFilter.HasValidExperience | src/utils/filterCandidates.ts:25 | The experience query is valid exactly when the text is not blank and does not convert to NaN. |
| CandidateFilter.MatchesExperience | src/utils/filterCandidates.ts:23-38 | A candidate passes the experience test exactly when the text is blank, converts to NaN, or converts to the candidate's number of years. |
| CandidateFilter.ExperienceBlank | src/utils/filterCandidates.ts:23-38 | Blank experience text is not a valid query and accepts every candidate. |
| CandidateFilter.ExperienceUnparsable | src/utils/filterCandidates.ts:25-38 | Experience text that converts to NaN is not a valid query and accepts every candidate. |
| CandidateFilter.ExperienceExact | src/utils/filterCandidates.ts:23-38 | Non-blank text that converts to `n` is a valid query, and it accepts exactly the candidates with `n` years of experience. |
| CandidateFilter.ExperiencePaddedNumeral | src/utils/filterCandidates.ts:23-38 | An experience text made of white space, leading zeros and the numeral of `n` accepts exactly the candidates with `n` years of experience. |
| CandidateFilter.ExperienceNumeral | src/utils/filterCandidates.ts:23-38 | Entering the numeral of `n` accepts exactly the candidates with `n` years of experience. |
| CandidateFilter.MatchesIsConjunction | src/utils/filterCandidates.ts:40 | A candidate matches exactly when it matches each of the four single-field filters taken from the state. |
| CandidateFilter.SameQueriesSameMatches | src/utils/filterCandidates.ts:21-25 | States with the same computed name query, position, status and experience query accept the same candidates. |
| CandidateFilter.EmptyFieldsMatch | src/utils/filterCandidates.ts:28-38 | A field that is exactly empty accepts every candidate. |
| CandidateFilter.FilterIsConjunction | src/utils/filterCandidates.ts:40 | Filtering by all four fields at once gives the same result as filtering by name, then position, then status, then experience. |
| CandidatesTable.SetField | src/components/CandidatesTable.tsx:90 | The spread copy with `key` set holds the new value at `key` and the old value at every other key. |
| CandidatesTable.ChangeFilter | src/components/CandidatesTable.tsx:88-102 | After a change, each field is the new value if it is the key changed, empty if the change clears it in cascade, and unchanged otherwise. |
| CandidatesTable.ChangeSetsField | src/components/CandidatesTable.tsx:89-100 | The changed field always holds the value given. |
| CandidatesTable.ClearNameCascades | src/components/CandidatesTable.tsx:92-95 | Setting the name to empty empties name, position and status, and keeps the experience. |
| CandidatesTable.ClearPositionCascades | src/components/CandidatesTable.tsx:96-98 | Setting the position to empty empties position and status, and keeps name and experience. |
| CandidatesTable.ChangeTouchesOnlyKey | src/components/CandidatesTable.tsx:88-101 | Setting the status or the experience, or a non-empty name or position, changes only that field. |
| CandidatesTable.PositionDisabled | src/components/CandidatesTable.tsx:107 | The position input is disabled exactly when the name text is blank. |
| CandidatesTable.StatusDisabled | src/components/CandidatesTable.tsx:108 | The status input is disabled exactly when no position is chosen or the name is blank. A disabled position therefore implies a disabled status. |
| CandidatesTable.InitialFiltersCascaded | src/components/CandidatesTable.tsx:58 | The initial state satisfies the cascade invariant, and both position and status start disabled. |
| CandidatesTable.ChangePreservesCascaded | src/components/CandidatesTable.tsx:88-108 | An edit through an enabled input preserves the invariant: a position only with a name, and a status only with a position. |
| CandidatesTable.BlankNameKeepsStalePosition | src/components/CandidatesTable.tsx:92-107 | A name of one space disables the position input, but an earlier position stays in the state and still excludes candidates. |
| CandidatesTable.FieldsDetermineState | src/components/CandidatesTable.tsx:88-102 | Helper for the proof of `HandleFilterChange`: two filter states that agree on all four keys are equal. |
| CandidatesTable.FilterPanel.constructor | src/components/CandidatesTable.tsx:58-61 | The component starts with the all-empty filter state. |
| CandidatesTable.FilterPanel.HandleFilterChange | src/components/CandidatesTable.tsx:88-102 | The new state is `ChangeFilter` of the old state, and an edit through an enabled input keeps the cascade invariant. |
| CandidatesTable.FilterPanel.HandleReset | src/components/CandidatesTable.tsx:104 | Whatever the prior state, the state afterwards is the all-empty filter state. |
| FilterCandidatesTests.EmptyFiltersReturnAll | src/utils/filterCandidates.test.ts:15-18 | Empty filters return all four fixture candidates in order. |
| FilterCandidatesTests.NameAli | src/utils/filterCandidates.test.ts:20-23 | Name "ali" returns the candidates with ids 1 and 4. |
| FilterCandidatesTests.NameAliUpperCase | src/utils/filterCandidates.test.ts:20 | Name "ALI" also returns ids 1 and 4, as the case-insensitive match in the test's title promises. |
| FilterCandidatesTests.PositionBackend | src/utils/filterCandidates.test.ts:25-28 | Position "Backend Developer" returns id 2. |
| FilterCandidatesTests.PositionCaseSensitive | src/utils/filterCandidates.ts:31-32 | Position "backend developer" keeps no fixture candidate: the comparison does not fold case. |
| FilterCandidatesTests.PositionNotTrimmed | src/utils/filterCandidates.ts:31-32 | Position "Backend Developer " with a trailing space keeps no fixture candidate: the comparison does not trim. |
| FilterCandidatesTests.StatusRejected | src/utils/filterCandidates.test.ts:30-33 | Status "Rejected" returns id 3. |
| FilterCandidatesTests.StatusCaseSensitive | src/utils/filterCandidates.ts:34-35 | Status "rejected" keeps no fixture candidate: the comparison does not fold case. |
| FilterCandidatesTests.ExperienceExactFour | src/utils/filterCandidates.test.ts:35-38 | Experience "4" returns id 4. |
| FilterCandidatesTests.ExperiencePaddedFour | src/utils/filterCandidates.ts:23-38 | Experience " 04 " keeps the same candidates as "4" on a four-candidate list. |
| FilterCandidatesTests.ExperienceNotANumber | src/utils/filterCandidates.test.ts:40-43 | Experience "abc" is ignored: any input, the fixture among them, is returned whole. |
| FilterCandidatesTests.CombinedFilters | src/utils/filterCandidates.test.ts:45-53 | Name "ali", position "Frontend Developer", status "Hired" and experience "4" together return id 4 only. |
| FilterCandidatesTests.NameBobPadded | src/utils/filterCandidates.test.ts:55-58 | Name "  bob  " is trimmed before matching and returns id 2. |

## Left out

- Fetching candidates with TanStack Query and `fetch` (src/components/CandidatesTable.tsx:66-78) is left out: it is network I/O and caching. The candidate sequence is a parameter of the filter.
- JSX rendering, layout, `useMediaQuery`, `getStatusStyle` and the theme in src/theme/theme.ts are left out: they are presentation only.
- Copying an e-mail to the clipboard and the Snackbar state are left out: they are browser side effects.
- `useMemo` is left out: it only caches `filterCandidates(candidates, filters)`, which the model computes directly.
- src/App.tsx is left out: it only wires providers.
- The fixed POSITIONS and STATUSES menus are left out. Position and status are free strings in the model, which covers every menu value.
- React's asynchronous, batched `setFilters` is left out. `HandleFilterChange` and `HandleReset` assign the new state at once.
- The `Candidate` and `FilterState` interfaces declared again in src/components/CandidatesTable.tsx:39-53 are modelled once, in `CandidateFilter`.
- Text.ToNumber: covers only optionally signed decimal integer literals after trimming. Decimals, exponents, hexadecimal, binary and octal literals and `Infinity` all give NaN here, unlike JavaScript, and IEEE-754 doubles are not modelled. The experience input has `type="number"` (src/components/CandidatesTable.tsx:274), so a float literal is what a user can really type. For "4.0" or "4e0" the source keeps the candidates with 4 years, and for "4.5" it keeps nobody; the model keeps everyone in both cases.
- CandidateFilter.Candidate: experience is an integer. A fractional experience value from the backend is not modelled.
- Text.ToLower: folds ASCII letters only. Full Unicode case mapping is not modelled, including mappings that change the length of a string.
- Text.Trim: works on Unicode scalar values, not on UTF-16 code units. `includes` and `toLowerCase` are modelled on the same units.
