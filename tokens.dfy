/** The token classifier behind word motion (Seeker::group_at in src/components.cpp). */
module Tokens {

  /** The classes a byte can fall into; None stands for "no byte there". */
  datatype Group = None | Space | Newline | Token | Normal

  /** Direction of a motion. */
  datatype Motion = Left | Right

  /** The fixed punctuation list, in source order (the quote and the bar appear twice). */
  const TokensList: seq<char> :=
    ['[', ']', '|', '(', ')', '{', '}', ';', '.', '!', '@',
     '#', '$', '%', '^', '&', '*', '-', '=', '+', ':', '\'',
     '\'', '<', '>', '?', '|', '\\', '/', ',', '`', '~', '\t']

  /** Membership in the token list, written as comparisons. */
  predicate IsToken(c: char)
  {
    || c == '[' || c == ']' || c == '|' || c == '(' || c == ')' || c == '{' || c == '}'
    || c == ';' || c == '.' || c == '!' || c == '@' || c == '#' || c == '$' || c == '%'
    || c == '^' || c == '&' || c == '*' || c == '-' || c == '=' || c == '+' || c == ':'
    || c == '\'' || c == '<' || c == '>' || c == '?' || c == '\\' || c == '/' || c == ','
    || c == '`' || c == '~' || c == '\t'
  }

  /** The comparisons above accept exactly the bytes of the token list. */
  lemma TokensListIsToken(c: char)
    ensures c in TokensList <==> IsToken(c)
  {
  }

  /** The group of the byte at `pos`; positions outside the text have group None. */
  function GroupOf(text: seq<char>, pos: int): (g: Group)
    ensures g == None <==> !(0 <= pos < |text|)
    ensures 0 <= pos < |text| ==> (g == Space <==> text[pos] == ' ')
    ensures 0 <= pos < |text| ==> (g == Newline <==> text[pos] == '\n')
    ensures 0 <= pos < |text| ==> (g == Token <==> IsToken(text[pos]))
  {
    if pos < 0 || pos >= |text| then None
    else if text[pos] == ' ' then Space
    else if text[pos] == '\n' then Newline
    else if IsToken(text[pos]) then Token
    else Normal
  }

  /** Tab and backslash are tokens, and the classifier looks only at the byte at `pos`. */
  lemma ClassifierExamples()
    ensures GroupOf("\t", 0) == Token && GroupOf("\\", 0) == Token
    ensures GroupOf("a b", 1) == Space && GroupOf("a\nb", 1) == Newline
    ensures GroupOf("ab", 2) == None && GroupOf("ab", -1) == None
  {
  }

  /** Lower-case letters are ordinary word bytes: none of them is in the token list. */
  lemma LowercaseIsNormal(text: seq<char>, pos: int)
    requires 0 <= pos < |text| && 'a' <= text[pos] <= 'z'
    ensures GroupOf(text, pos) == Normal
  {
  }
}
