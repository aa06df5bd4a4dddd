/**
  The spellout dispatcher and its English word tables (src/number.rs).

  A caller builds a `NumberModifier` from a number type (and a format string
  that is dropped), hands it with a locale to `SpelloutNumber`, and gets back
  a spellout function from unsigned 64-bit magnitudes to a phrase or an error.
  Each word table is a closed lookup: it answers for the values it lists and
  fails with `NumberOutOfRange` for every other magnitude.
*/
module Number {

  /** The two failure kinds of the library. */
  datatype Error = UnsupportedLocale | NumberOutOfRange

  /** `Result<T, Error>` with the error type fixed to the library's `Error`. */
  datatype Result<T> = Ok(value: T) | Err(error: Error)

  /** Counting ("three") or ranking ("second") numbers. */
  datatype NumberType = Cardinal | Ordinal

  /** The formatting modifier: it holds the number type and nothing else. */
  datatype NumberModifier = NumberModifier(numberType: NumberType)

  /** A locale identifier from a foreign library; this code never inspects one. */
  type Locale

  /** Unsigned 64-bit magnitudes, the argument type of every spellout function. */
  type U64 = n: nat | n < 0x1_0000_0000_0000_0000

  /** The function the dispatcher hands back: magnitude to phrase or error. */
  type Spellout = U64 -> Result<string>

  /** A non-empty word made only of the lower-case letters a to z. */
  predicate IsLowercaseWord(s: string) {
    |s| > 0 && forall i :: 0 <= i < |s| ==> 'a' <= s[i] <= 'z'
  }

  /** Builds a modifier; the format argument is accepted and thrown away. */
  function NewNumberModifier(numberType: NumberType, format: string): (m: NumberModifier)
    ensures m.numberType == numberType
  {
    NumberModifier(numberType)
  }

  /**
    Picks the word table from the modifier's number type alone. The locale is
    not consulted, and neither branch fails, so `UnsupportedLocale` is never
    returned, neither by the dispatcher nor by the function it returns.
  */
  function SpelloutNumber(locale: Locale, modifier: NumberModifier): (r: Result<Spellout>)
    ensures r.Ok?
    ensures forall n: U64 :: r.value(n).Err? ==> r.value(n).error == NumberOutOfRange
  {
    match modifier.numberType
    case Cardinal => Ok(SpelloutEnCardinal)
    case Ordinal => Ok(SpelloutEnOrdinal)
  }

  /** English cardinal words: defined for 2 and 3 only, fail-closed elsewhere. */
  function SpelloutEnCardinal(num: U64): (r: Result<string>)
    ensures r.Ok? <==> num == 2 || num == 3
    ensures r.Err? ==> r.error == NumberOutOfRange
    ensures r.Ok? ==> IsLowercaseWord(r.value)
  {
    match num
    case 2 => Ok("two")
    case 3 => Ok("three")
    case _ => Err(NumberOutOfRange)
  }

  /** English ordinal words: defined for 2 only, fail-closed elsewhere. */
  function SpelloutEnOrdinal(num: U64): (r: Result<string>)
    ensures r.Ok? <==> num == 2
    ensures r.Err? ==> r.error == NumberOutOfRange
    ensures r.Ok? ==> IsLowercaseWord(r.value)
  {
    match num
    case 2 => Ok("second")
    case _ => Err(NumberOutOfRange)
  }
}
