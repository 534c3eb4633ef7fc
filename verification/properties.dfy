/** The value checks of the App Engine `db` property classes the entities declare. A value is
    checked whenever it is assigned, by the entity constructor or by a later attribute
    assignment, and a value that fails raises `BadValueError`. */
module Properties {

  /** `StringProperty.MAX_LENGTH`: the most characters a string property holds. */
  const MaxStringLength := 1500

  /** A value a `StringProperty` accepts. It is single-line unless declared `multiline`, which
      no property of the blog is, so a newline fails; so does a value longer than
      `MaxStringLength`, and an empty value when the property is `required`. */
  predicate StringOk(v: string, required: bool) {
    (v != "" || !required) && |v| <= MaxStringLength && '\n' !in v
  }

  /** A value a `TextProperty` accepts: any length and any characters, but not empty when the
      property is `required`. */
  predicate TextOk(v: string, required: bool) {
    v != "" || !required
  }
}
