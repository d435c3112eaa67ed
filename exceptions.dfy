/** The two errors a TempDir can raise (src/Exceptions/) and the result type
    that carries them in place of PHP's exceptions. */
module Exceptions {
  import opened PhpString

  const MessagePrefix: string := "The directory name `"
  const MessageSuffix: string := "` contains invalid characters."

  /** InvalidDirectoryName::create($directoryName): the exception message,
      which quotes the rejected name between back-ticks. */
  function InvalidDirectoryNameMessage(directoryName: string): (msg: string)
    ensures |msg| == |MessagePrefix| + |directoryName| + |MessageSuffix|
    ensures msg[..|MessagePrefix|] == MessagePrefix
    ensures msg[|MessagePrefix|..|MessagePrefix| + |directoryName|] == directoryName
    ensures msg[|MessagePrefix| + |directoryName|..] == MessageSuffix
  {
    MessagePrefix + directoryName + MessageSuffix
  }

  /** The rejected name can be read back out of the message. */
  function NameInMessage(msg: string): string
    requires |msg| >= |MessagePrefix| + |MessageSuffix|
  {
    msg[|MessagePrefix|..|msg| - |MessageSuffix|]
  }

  lemma MessageNameRoundTrip(directoryName: string)
    ensures NameInMessage(InvalidDirectoryNameMessage(directoryName)) == directoryName
  {
  }

  /** Distinct names give distinct messages. */
  lemma {:induction false} MessageInjective(a: string, b: string)
    requires InvalidDirectoryNameMessage(a) == InvalidDirectoryNameMessage(b)
    ensures a == b
  {
    MessageNameRoundTrip(a);
    MessageNameRoundTrip(b);
  }

  /** The message holds the rejected name as a contiguous substring. */
  lemma MessageContainsName(directoryName: string)
    ensures exists i :: OccursAt(directoryName, InvalidDirectoryNameMessage(directoryName), i)
  {
    assert OccursAt(directoryName, InvalidDirectoryNameMessage(directoryName), |MessagePrefix|);
  }

  /** The message the test suite expects for the name "/". */
  lemma MessageForSlash()
    ensures InvalidDirectoryNameMessage("/") == "The directory name `/` contains invalid characters."
  {
    var lit := "The directory name `/` contains invalid characters.";
    assert |lit| == |MessagePrefix| + 1 + |MessageSuffix|;
    assert lit[..|MessagePrefix|] == MessagePrefix;
    assert lit[|MessagePrefix|] == '/';
    assert lit[|MessagePrefix| + 1..] == MessageSuffix;
  }

  /** PathAlreadyExists carries the path it refused to create over; its
      message text is not part of this model. */
  datatype Error =
    | InvalidDirectoryName(message: string)
    | PathAlreadyExists(path: string)

  /** A TempDir operation either returns its value (for the chainable
      operations, the handle itself) or raises one of the errors above. */
  datatype Result<+T> = Success(value: T) | Failure(error: Error)
}
