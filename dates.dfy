/** Calendar arithmetic the controllers perform on assignment due dates. */
module Dates {

  /** An assignment's due date as stored: a text that is null, a text that does not
      parse as an ISO date (yyyy-MM-dd), or a day, counted in days from an epoch. */
  datatype DueDate = NoDueDate | Unparsable | OnDay(day: int)

  const INT_MIN: int := -0x8000_0000
  const INT_MAX: int := 0x7fff_ffff

  /** The Java narrowing cast `(int)` of a long: keeps the low 32 bits, two's complement. */
  function ToJavaInt(x: int): (r: int)
    ensures INT_MIN <= r <= INT_MAX
    ensures (x - r) % 0x1_0000_0000 == 0
  {
    (x - INT_MIN) % 0x1_0000_0000 + INT_MIN
  }

  /** The cast leaves every value that fits in an int unchanged. */
  lemma ToJavaIntExact(x: int)
    requires INT_MIN <= x <= INT_MAX
    ensures ToJavaInt(x) == x
  {
  }

  /** ChronoUnit.DAYS.between(from, to): whole days from `from` to `to`, negative when `to` is earlier. */
  function DaysBetween(from: int, to: int): int {
    to - from
  }
}
