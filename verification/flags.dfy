/** The command-line vocabulary shared by the parser and the command: the three
    modes and the spellings of every flag and mode value. */
module Flags {

  datatype Mode = HELP | ENCRYPT | DECRYPT

  /** The enum constant's name, as a command prints it: each mode prints as
      its own name. */
  function ModeName(m: Mode): (r: string)
    ensures m == HELP ==> r == "HELP"
    ensures m == ENCRYPT ==> r == "ENCRYPT"
    ensures m == DECRYPT ==> r == "DECRYPT"
  {
    match m
    case HELP => "HELP"
    case ENCRYPT => "ENCRYPT"
    case DECRYPT => "DECRYPT"
  }

  const MODE_FLAG: seq<string> := ["-m", "-mode"]
  const MODE_VALUE_ENCRYPT: seq<string> := ["e", "encrypt"]
  const MODE_VALUE_DECRYPT: seq<string> := ["d", "decrypt"]
  const PASSWORD_FLAG: seq<string> := ["-p", "-password"]
  const HELP_FLAG: seq<string> := ["-h", "-help"]
  const NAME_FLAG: seq<string> := ["-n", "-name"]
  const OUTPUT_DIRECTORY_FLAG: seq<string> := ["-d", "-directory"]

  /** The four flags that take a value. */
  predicate IsPropertyFlag(flag: string) {
    flag in MODE_FLAG || flag in PASSWORD_FLAG || flag in NAME_FLAG || flag in OUTPUT_DIRECTORY_FLAG
  }

  /** Which field a property flag sets: flags of the same group set the same
      field. */
  function FlagGroup(flag: string): nat
    requires IsPropertyFlag(flag)
  {
    if flag in MODE_FLAG then 0
    else if flag in PASSWORD_FLAG then 1
    else if flag in NAME_FLAG then 2
    else 3
  }
}
