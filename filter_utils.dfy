/** The template filter that picks a singular or plural suffix for a count. */
module FilterUtils {

  /** `singular` for a count of exactly one, `plural` for every other count, zero included. */
  function Pluralize(count: int, singular: string := "", plural: string := "s"): (r: string)
    ensures count == 1 ==> r == singular
    ensures count != 1 ==> r == plural
  {
    if count == 1 then singular else plural
  }

  /** The result is always one of the two given strings. */
  lemma PluralizeIsOneOfTwo(count: int, singular: string, plural: string)
    ensures Pluralize(count, singular, plural) in {singular, plural}
  {
  }

  /** With the default suffixes: nothing for one, "s" otherwise. */
  lemma PluralizeDefaults(count: int)
    ensures Pluralize(1) == ""
    ensures count != 1 ==> Pluralize(count) == "s"
    ensures Pluralize(0) == "s"
  {
  }
}
