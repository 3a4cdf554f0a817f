/**
 * Reading the command word of a console line, as java.util.Scanner.next()
 * does with its default whitespace delimiter, and choosing the branch of the
 * command switch it names.
 */
module Commands {
  import opened Wrappers

  /** The whitespace characters below U+0080 that Character.isWhitespace accepts. */
  predicate IsWhitespace(c: char) {
    c == ' ' || c == '\t' || c == '\n' || c == '\r' || c == '\U{0B}' || c == '\U{0C}'
    || ('\U{1C}' <= c <= '\U{1F}')
  }

  predicate NoWhitespace(s: string) {
    forall i :: 0 <= i < |s| ==> !IsWhitespace(s[i])
  }

  predicate AllWhitespace(s: string) {
    forall i :: 0 <= i < |s| ==> IsWhitespace(s[i])
  }

  /** The line after its leading delimiters. */
  function SkipWhitespace(s: string): (r: string)
    ensures |r| <= |s| && r == s[|s| - |r|..]
    ensures AllWhitespace(s[..|s| - |r|])
    ensures r == [] || !IsWhitespace(r[0])
  {
    if s != [] && IsWhitespace(s[0]) then SkipWhitespace(s[1..]) else s
  }

  /** The longest prefix of `s` without a delimiter. */
  function TakeWord(s: string): (w: string)
    ensures |w| <= |s| && w == s[..|w|]
    ensures NoWhitespace(w)
    ensures |w| == |s| || IsWhitespace(s[|w|])
  {
    if s == [] || IsWhitespace(s[0]) then [] else [s[0]] + TakeWord(s[1..])
  }

  /** Scanner.next(): the first token of the line, or None when it has none. */
  function NextToken(line: string): (token: Option<string>)
    ensures token.None? <==> AllWhitespace(line)
    ensures token.Some? ==> token.value != [] && NoWhitespace(token.value)
  {
    var r := SkipWhitespace(line);
    if r == [] then
      assert line[..|line|] == line;
      None
    else
      assert line[|line| - |r|] == r[0];
      Some(TakeWord(r))
  }

  lemma {:induction false} SkipLeadingWhitespace(lead: string, s: string)
    requires AllWhitespace(lead)
    requires s == [] || !IsWhitespace(s[0])
    ensures SkipWhitespace(lead + s) == s
  {
    if lead != [] {
      assert (lead + s)[1..] == lead[1..] + s;
      SkipLeadingWhitespace(lead[1..], s);
    }
  }

  lemma {:induction false} TakeWholeWord(word: string, rest: string)
    requires NoWhitespace(word)
    requires rest == [] || IsWhitespace(rest[0])
    ensures TakeWord(word + rest) == word
  {
    if word != [] {
      assert (word + rest)[1..] == word[1..] + rest;
      TakeWholeWord(word[1..], rest);
      assert word == [word[0]] + word[1..];
    }
  }

  /** A line made of delimiters, a word and a delimited rest yields that word. */
  lemma NextTokenOfLine(lead: string, word: string, rest: string)
    requires AllWhitespace(lead)
    requires word != [] && NoWhitespace(word)
    requires rest == [] || IsWhitespace(rest[0])
    ensures NextToken(lead + word + rest) == Some(word)
  {
    assert lead + word + rest == lead + (word + rest);
    SkipLeadingWhitespace(lead, word + rest);
    TakeWholeWord(word, rest);
  }

  /** The command words that have a branch in the command switch. */
  const COMMAND_WORDS: set<string> := {
    "bye", "list", "done", "delete", "find", "remind", "schedule", "free",
    "reschedule", "recurring", "event", "todo", "deadline"
  }

  datatype CommandError =
    | InvalidInput(input: string)  // InvalidInputException from the default branch
    | NoCommandWord                // Scanner.next() on a line without a token

  /** The branch of the command switch the line selects, or the error it raises. */
  function Dispatch(input: string): (r: Result<string, CommandError>)
    ensures r.Success? ==> r.value in COMMAND_WORDS && NextToken(input) == Some(r.value)
    ensures r == Failure(NoCommandWord) <==> AllWhitespace(input)
  {
    match NextToken(input)
    case None => Failure(NoCommandWord)
    case Some(word) => if word in COMMAND_WORDS then Success(word) else Failure(InvalidInput(input))
  }

  /** A line that starts with a known command word selects its branch; any other word is rejected. */
  lemma DispatchOfLine(lead: string, word: string, rest: string)
    requires AllWhitespace(lead)
    requires word != [] && NoWhitespace(word)
    requires rest == [] || IsWhitespace(rest[0])
    ensures word in COMMAND_WORDS ==> Dispatch(lead + word + rest) == Success(word)
    ensures word !in COMMAND_WORDS ==> Dispatch(lead + word + rest) == Failure(InvalidInput(lead + word + rest))
  {
    NextTokenOfLine(lead, word, rest);
  }
}
