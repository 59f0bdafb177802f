/**
 * The age threshold shared by the submission form and the report handler:
 * both the form's refusal and the handler's delete compare a found age
 * against the same literal 16.
 */
module AgeLimit {
  import opened Options

  /** Ages below this are a minor's. */
  const MIN_AGE: nat := 16

  /** `age !== null && age < 16`: an age was found and it is below the threshold. */
  predicate UnderAge(age: Option<nat>)
  {
    age.Some? && age.value < MIN_AGE
  }
}
