/**
 * Culture-dependent number conversion, which the model does not interpret.
 *
 * `double.TryParse`, `Convert.ToDouble(string)` and the `ToString` of numbers
 * depend on the current culture and on IEEE-754 rounding; the model takes them
 * as parameters, so every property proved holds for any culture.
 */
module Numbers {

  import opened Wrappers

  datatype NumberFormat = NumberFormat(
    /** `double.TryParse(s, out x)`: `Some(x)` on success. `Convert.ToDouble(s)` agrees with it and throws where it fails. */
    tryParse: string -> Option<real>,
    /** The message of the `FormatException` that `Convert.ToDouble(s)` throws when `tryParse(s)` fails. */
    formatErrorMessage: string -> string,
    /** `int.ToString()` and `long.ToString()`. */
    formatInteger: int -> string,
    /** `double.ToString()`. */
    formatReal: real -> string,
    /** The `N0` format of a `double`: rounded, with group separators. */
    formatGrouped: real -> string
  )
}
