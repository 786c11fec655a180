/** The record the form hands to the PDF generator: every named control of the
    form with its current value (`getFormData`, src/js/form.js). */
module FormData {

  /** Field identifier to value. */
  type Record = map<string, string>

  /** `data[key]`, where a control that is not in the record reads as the empty
      string: the source only ever tests such a value for truthiness or
      interpolates it with `|| ''`, and `undefined` and `''` behave alike there. */
  function Get(data: Record, key: string): (v: string)
    ensures key in data ==> v == data[key]
    ensures key !in data ==> v == ""
  {
    if key in data then data[key] else ""
  }
}
