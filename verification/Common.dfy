/** Values that may be missing, the C library's search for a character, and the table of long options
    that argp makes and getopt reads. */
module Common {
  datatype Option<+T> = None | Some(value: T)

  /** has_arg of a long option. */
  datatype HasArg = NoArgument | RequiredArgument | OptionalArgument
  datatype LongOption = LongOption(name: string, hasArg: HasArg, flag: Option<nat>, val: int)

  /** strchr, but for the terminator: the first index that holds c. */
  function IndexOf(s: string, c: char): (r: Option<nat>)
    ensures match r
      case None => c !in s
      case Some(i) => i < |s| && s[i] == c && c !in s[..i]
  {
    if s == "" then None else if s[0] == c then Some(0)
    else match IndexOf(s[1..], c)
      case None => None
      case Some(i) => assert s[..i + 1] == [s[0]] + s[1..][..i]; Some(i + 1)
  }

  lemma {:induction false} IndexIs(s: string, c: char, i: nat)
    requires i < |s| && s[i] == c && c !in s[..i]
    ensures IndexOf(s, c) == Some(i)
  {
    if i > 0 {
      assert s[0] != c by { assert s[..i][0] == s[0]; }
      assert s[..i] == [s[0]] + s[1..][..i - 1];
      IndexIs(s[1..], c, i - 1);
    }
  }
}
