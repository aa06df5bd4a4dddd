/**
  Properties of the spellout dispatcher: the exact answers the unit tests of
  src/number.rs expect, the word tables as partial maps, what the dispatcher
  does and does not depend on, and which phrases can come out at all.
*/
module NumberProperties {
  import opened Number

  /** Reference definition of the English cardinal table as a partial map. */
  const EnCardinalWords: map<U64, string> := map[2 := "two", 3 := "three"]

  /** Reference definition of the English ordinal table as a partial map. */
  const EnOrdinalWords: map<U64, string> := map[2 := "second"]

  /** Every phrase that any spellout function can produce. */
  const AllWords: set<string> := {"two", "three", "second"}

  // The three unit tests, for every locale and every format string.

  lemma CardinalThree(locale: Locale, format: string)
    ensures SpelloutNumber(locale, NewNumberModifier(Cardinal, format)).Ok?
    ensures SpelloutNumber(locale, NewNumberModifier(Cardinal, format)).value(3) == Ok("three")
  {
  }

  lemma CardinalTwo(locale: Locale, format: string)
    ensures SpelloutNumber(locale, NewNumberModifier(Cardinal, format)).Ok?
    ensures SpelloutNumber(locale, NewNumberModifier(Cardinal, format)).value(2) == Ok("two")
  {
  }

  lemma OrdinalTwo(locale: Locale, format: string)
    ensures SpelloutNumber(locale, NewNumberModifier(Ordinal, format)).Ok?
    ensures SpelloutNumber(locale, NewNumberModifier(Ordinal, format)).value(2) == Ok("second")
  {
  }

  /** The cardinal table is exactly the partial map `EnCardinalWords`, failing closed off its domain. */
  lemma CardinalIsTableLookup(n: U64)
    ensures SpelloutEnCardinal(n) ==
      if n in EnCardinalWords then Ok(EnCardinalWords[n]) else Err(NumberOutOfRange)
  {
  }

  /** The ordinal table is exactly the partial map `EnOrdinalWords`, failing closed off its domain. */
  lemma OrdinalIsTableLookup(n: U64)
    ensures SpelloutEnOrdinal(n) ==
      if n in EnOrdinalWords then Ok(EnOrdinalWords[n]) else Err(NumberOutOfRange)
  {
  }

  /** A word is produced by the cardinal table for some magnitude exactly when it is one of the table's words. */
  lemma CardinalImage(w: string)
    ensures (exists n: U64 :: SpelloutEnCardinal(n) == Ok(w)) <==> w in EnCardinalWords.Values
  {
    assert EnCardinalWords[2] == "two" && EnCardinalWords[3] == "three";
    if w in EnCardinalWords.Values {
      var k :| k in EnCardinalWords && EnCardinalWords[k] == w;
      assert SpelloutEnCardinal(k) == Ok(w);
    }
  }

  /** A word is produced by the ordinal table for some magnitude exactly when it is one of the table's words. */
  lemma OrdinalImage(w: string)
    ensures (exists n: U64 :: SpelloutEnOrdinal(n) == Ok(w)) <==> w in EnOrdinalWords.Values
  {
    assert EnOrdinalWords[2] == "second";
    if w in EnOrdinalWords.Values {
      assert SpelloutEnOrdinal(2) == Ok(w);
    }
  }

  /** The dispatcher's function is the cardinal table for `Cardinal` and the ordinal table for `Ordinal`. */
  lemma DispatchByNumberType(locale: Locale, modifier: NumberModifier, n: U64)
    ensures modifier.numberType == Cardinal ==>
      SpelloutNumber(locale, modifier).value(n) == SpelloutEnCardinal(n)
    ensures modifier.numberType == Ordinal ==>
      SpelloutNumber(locale, modifier).value(n) == SpelloutEnOrdinal(n)
  {
  }

  /** Two locales with the same modifier give spellout functions that agree on every magnitude. */
  lemma LocaleHasNoEffect(l1: Locale, l2: Locale, modifier: NumberModifier, n: U64)
    ensures SpelloutNumber(l1, modifier).value(n) == SpelloutNumber(l2, modifier).value(n)
  {
  }

  /** Modifiers built with the same number type and different formats are equal and behave identically. */
  lemma FormatIsDiscarded(t: NumberType, f1: string, f2: string, locale: Locale, n: U64)
    ensures NewNumberModifier(t, f1) == NewNumberModifier(t, f2)
    ensures SpelloutNumber(locale, NewNumberModifier(t, f1)).value(n) ==
            SpelloutNumber(locale, NewNumberModifier(t, f2)).value(n)
  {
  }

  /** Any phrase that comes out is lower case and one of "two", "three" and "second". */
  lemma SuccessfulWordsAreFixed(locale: Locale, modifier: NumberModifier, n: U64)
    ensures SpelloutNumber(locale, modifier).value(n).Ok? ==>
      SpelloutNumber(locale, modifier).value(n).value in AllWords &&
      IsLowercaseWord(SpelloutNumber(locale, modifier).value(n).value)
  {
  }

  /**
    A phrase identifies its input: two successful calls that return the same
    word were made with the same number type and the same magnitude.
  */
  lemma WordDeterminesInput(l1: Locale, m1: NumberModifier, n1: U64,
                            l2: Locale, m2: NumberModifier, n2: U64)
    requires SpelloutNumber(l1, m1).value(n1).Ok?
    requires SpelloutNumber(l2, m2).value(n2) == SpelloutNumber(l1, m1).value(n1)
    ensures m1.numberType == m2.numberType && n1 == n2
  {
  }
}
