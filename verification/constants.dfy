/** The period-unit tokens and the timestamp layout shared by the packages. */
module Constants {

  /** The layout, in Go's reference-time notation, of every timestamp read and written. */
  const TimestampLayout: string := "20060102T150405Z"

  const Year: string := "y"
  const Month: string := "mo"
  const Day: string := "d"
  const Hour: string := "h"
}
