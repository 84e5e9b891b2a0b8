/** The values an absent JSON field, a null pointer or Python's None stand for. */
module OptionType {
  datatype Option<+T> = None | Some(value: T)
}
