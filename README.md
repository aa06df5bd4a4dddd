# Spellout dispatcher — Dafny model

This project models the number-spellout core of the `spellout` library,
`src/number.rs`. A caller builds a `NumberModifier` from a `NumberType`
(`Cardinal` or `Ordinal`) and a format string. It passes the modifier and a
locale to `spellout_number`, which returns a function from `u64` magnitudes to
`Result<String, Error>`. The two English word tables behind that function are
closed lookups. The cardinal table knows 2 ("two") and 3 ("three"). The
ordinal table knows 2 ("second"). Both fail with `NumberOutOfRange` for
every other magnitude.

Files:
- `number.dfy` (module `Number`): the error type, number type, modifier,
  locale, dispatcher and word tables.
- `number_properties.dfy` (module `NumberProperties`): the unit tests as
  lemmas, the tables as reference partial maps, and what the dispatcher does
  and does not depend on.

Modelling choices:
- `Locale` is an opaque type, because the code never looks inside one.
- `u64` is the subset type `U64` of naturals below 2^64.
- The closure returned by `spellout_number` is a Dafny function value of type
  `U64 -> Result<string>`. `Result` fixes its error type to `Error`.
- Rust's `String` is `string` (a sequence of characters).

The design description of the library describes a larger engine, with
recursive hundred/thousand/million/billion decomposition, case folding,
Swedish tables, an `UnsupportedNumberType` error and rejection of unknown
locales. The code in `src/number.rs` has none of this. In the code the locale
is ignored, no call can fail with `UnsupportedLocale`, and English cardinals
cover only 2 and 3. The model follows the code.

## Model

| member | source | states |
|---|---|---|
| `Number.NewNumberModifier` | src/number.rs:20-24 | the modifier keeps the requested number type |
| `Number.SpelloutNumber` | src/number.rs:26-34 | the dispatcher always succeeds, and the function it returns fails only with `NumberOutOfRange`, never `UnsupportedLocale` |
| `Number.SpelloutEnCardinal` | src/number.rs:36-42 | succeeds exactly for 2 and 3; every other magnitude gives `NumberOutOfRange`; a produced word is a non-empty lower-case word |
| `Number.SpelloutEnOrdinal` | src/number.rs:44-49 | succeeds exactly for 2; every other magnitude gives `NumberOutOfRange`; a produced word is a non-empty lower-case word |
| `NumberProperties.CardinalThree` | src/number.rs:55-60 | for any locale and format, a cardinal modifier gives a spellout function that maps 3 to `Ok("three")` |
| `NumberProperties.CardinalTwo` | src/number.rs:62-67 | for any locale and format, a cardinal modifier gives a spellout function that maps 2 to `Ok("two")` |
| `NumberProperties.OrdinalTwo` | src/number.rs:68-73 | for any locale and format, an ordinal modifier gives a spellout function that maps 2 to `Ok("second")` |
| `NumberProperties.CardinalIsTableLookup` | src/number.rs:36-42 | the cardinal table equals the partial map {2: "two", 3: "three"}, with `NumberOutOfRange` outside its domain |
| `NumberProperties.OrdinalIsTableLookup` | src/number.rs:44-49 | the ordinal table equals the partial map {2: "second"}, with `NumberOutOfRange` outside its domain |
| `NumberProperties.CardinalImage` | src/number.rs:37-40 | a word is produced by the cardinal table for some magnitude if and only if it is "two" or "three" |
| `NumberProperties.OrdinalImage` | src/number.rs:45-47 | a word is produced by the ordinal table for some magnitude if and only if it is "second" |
| `NumberProperties.DispatchByNumberType` | src/number.rs:30-33 | `Cardinal` selects the cardinal table and `Ordinal` selects the ordinal table |
| `NumberProperties.LocaleHasNoEffect` | src/number.rs:26-33 | two locales with the same modifier give functions that agree on every magnitude |
| `NumberProperties.FormatIsDiscarded` | src/number.rs:21-23 | modifiers built with the same number type and different formats are equal and spell out every magnitude the same way |
| `NumberProperties.SuccessfulWordsAreFixed` | src/number.rs:38-39 | every successful phrase is lower case and one of "two", "three" and "second" |
| `NumberProperties.WordDeterminesInput` | src/number.rs:30-47 | two successful calls that return the same word used the same number type and the same magnitude |

## Left out

- `icu_locid::Locale` and the `locale!` macro belong to a foreign library. `Locale` is an opaque type here, because the code never inspects it.
- The unused import `use core::num` has no behaviour to model.
- The `#[cfg(test)]` module is not modelled as code. Its three assertions are the lemmas `CardinalThree`, `CardinalTwo` and `OrdinalTwo`.
- `#[derive(Debug)]` on `Error` only affects formatting for display and is not modelled.
- The recursive band decomposition, case folding, Swedish tables, `UnsupportedNumberType` and locale-based rejection are described for the library but are absent from `src/number.rs`. They are not modelled.
