/** What the scrubber hides, said in characters: which lines are assignments, which words make
    one secret, which values hold URL credentials, and what each becomes. */
module Secrets {
  import opened Types
  import opened Strings
  import opened Redaction
  import opened Scrubber

  // ----- Assignment lines -----

  predicate IsBlankChar(c: char) {
    c == ' ' || c == '\t' || c == '\n' || c == '\r' || c as int == 11 || c as int == 12
  }

  predicate IsBlank(s: string) {
    forall i :: 0 <= i < |s| ==> IsBlankChar(s[i])
  }

  /** Indent, an optional list dash, a key of letters, digits, `_`, `.` and `-`, a separator, blanks,
      a value with no blanks around it, and trailing blanks. A colon takes an upper-snake key with
      at least one letter, and a value. Without a value there are no blanks before it. */
  predicate IsAssignmentText(p: Parts) {
    && IsBlank(p.indent) && IsBlank(p.gap) && IsBlank(p.tail)
    && (p.dash == [] || p.dash == ['-', ' '])
    && |p.key| > 0
    && (forall i :: 0 <= i < |p.key| ==>
          'a' <= p.key[i] <= 'z' || 'A' <= p.key[i] <= 'Z' || '0' <= p.key[i] <= '9'
          || p.key[i] == '_' || p.key[i] == '.' || p.key[i] == '-')
    && (p.sep == '=' || p.sep == ':')
    && (p.sep == ':' ==>
          && |p.value| > 0
          && (forall i :: 0 <= i < |p.key| ==> 'A' <= p.key[i] <= 'Z' || '0' <= p.key[i] <= '9' || p.key[i] == '_')
          && exists i :: 0 <= i < |p.key| && 'A' <= p.key[i] <= 'Z')
    && (|p.value| > 0 ==> !IsBlankChar(p.value[0]) && !IsBlankChar(p.value[|p.value| - 1]))
    && (|p.value| == 0 ==> |p.gap| == 0)
  }

  lemma AssignmentIsSpelled(p: Parts)
    ensures IsAssignmentText(p) <==> IsAssignment(p)
  {
    assert forall c :: IsBlankChar(c) <==> IsSpace(c);
    assert ['-', ' '] == "- ";
  }

  function Before(p: Parts): string {
    p.indent + p.dash + p.key + [p.sep] + p.gap
  }

  lemma TextIsSpelled(p: Parts)
    ensures Text(p) == Before(p) + p.value + p.tail
    ensures forall v :: Text(p.(value := v, tail := "")) == Before(p) + v
  {
    forall v
      ensures Text(p.(value := v, tail := "")) == Before(p) + v
    {
      assert Text(p.(value := v, tail := "")) == p.indent + (p.dash + (p.key + [p.sep] + p.gap + v)) + "";
    }
    assert Text(p) == p.indent + (p.dash + (p.key + [p.sep] + p.gap + p.value)) + p.tail;
  }

  // ----- Secret words -----

  /** The word stands at `i`, in any case of its letters. */
  predicate WordAt(text: string, i: int, word: string) {
    0 <= i <= |text| - |word| && forall k :: 0 <= k < |word| ==>
      text[i + k] == word[k] || ('A' <= word[k] <= 'Z' && text[i + k] as int == word[k] as int + 32)
  }

  predicate HoldsWord(text: string, word: string) {
    exists i :: 0 <= i <= |text| && WordAt(text, i, word)
  }

  /** One of the eight words, in any case. */
  predicate HoldsSecretWord(text: string) {
    || HoldsWord(text, "PASSWORD") || HoldsWord(text, "PASSWD") || HoldsWord(text, "SECRET") || HoldsWord(text, "TOKEN")
    || HoldsWord(text, "API_KEY") || HoldsWord(text, "PRIVATE_KEY") || HoldsWord(text, "AUTH")
    || HoldsWord(text, "CREDENTIAL")
  }

  predicate HasNoLower(word: string) {
    forall k :: 0 <= k < |word| ==> !('a' <= word[k] <= 'z')
  }

  lemma WordIsSpelled(text: string, word: string)
    requires HasNoLower(word)
    ensures Contains(Upper(text), word) <==> HoldsWord(text, word)
  {
    forall i
      ensures OccursAt(Upper(text), word, i) <==> WordAt(text, i, word)
    {
      WordAtIsSpelled(text, word, i);
    }
    if Contains(Upper(text), word) {
      assert WordAt(text, IndexOf(Upper(text), word).value, word);
    }
    if HoldsWord(text, word) {
      var i :| 0 <= i <= |text| && WordAt(text, i, word);
      assert OccursAt(Upper(text), word, i);
    }
  }

  lemma WordAtIsSpelled(text: string, word: string, i: int)
    requires HasNoLower(word)
    ensures OccursAt(Upper(text), word, i) <==> WordAt(text, i, word)
  {
    var upper := Upper(text);
    assert |upper| == |text|;
    if 0 <= i <= |text| - |word| {
      forall k | 0 <= k < |word|
        ensures upper[i..i + |word|][k] == word[k] <==>
                  text[i + k] == word[k] || ('A' <= word[k] <= 'Z' && text[i + k] as int == word[k] as int + 32)
      {
        assert upper[i..i + |word|][k] == upper[i + k];
      }
      if WordAt(text, i, word) {
        assert upper[i..i + |word|] == word;
      }
    }
  }

  lemma SecretWordsAreSpelled(text: string)
    ensures NamesSecret(text) <==> HoldsSecretWord(text)
  {
    hide Contains, HoldsWord, Upper;
    forall word | word in SECRET_PATTERNS
      ensures Contains(Upper(text), word) <==> HoldsWord(text, word)
    {
      WordIsSpelled(text, word);
    }
    assert SECRET_PATTERNS[0] == "PASSWORD" && SECRET_PATTERNS[1] == "PASSWD" && SECRET_PATTERNS[2] == "SECRET";
    assert SECRET_PATTERNS[3] == "TOKEN" && SECRET_PATTERNS[4] == "API_KEY" && SECRET_PATTERNS[5] == "PRIVATE_KEY";
    assert SECRET_PATTERNS[6] == "AUTH" && SECRET_PATTERNS[7] == "CREDENTIAL";
  }

  // ----- URL credentials -----

  predicate SchemeAt(value: string, i: int) {
    0 <= i && i + 3 <= |value| && value[i] == ':' && value[i + 1] == '/' && value[i + 2] == '/'
  }

  /** The first `://` stands at `i`, the first `@` after it at `j`, and a colon between them. */
  ghost predicate CredentialsAt(value: string, i: int, j: int) {
    && SchemeAt(value, i) && (forall m :: 0 <= m < i ==> !SchemeAt(value, m))
    && i + 3 <= j < |value| && value[j] == '@' && (forall m :: i + 3 <= m < j ==> value[m] != '@')
    && exists m :: i + 3 <= m < j && value[m] == ':'
  }

  lemma SchemeIsSpelled(value: string, i: int)
    ensures OccursAt(value, "://", i) <==> SchemeAt(value, i)
  {
    if 0 <= i && i + 3 <= |value| {
      assert value[i..i + 3] == [value[i], value[i + 1], value[i + 2]];
    }
  }

  lemma CredentialsAreSpelled(value: string)
    ensures HasUrlCredentials(value) <==> exists i, j :: CredentialsAt(value, i, j)
    ensures forall i, j :: CredentialsAt(value, i, j) ==> UrlAt(value) == Some((i, j))
  {
    hide OccursAt, SchemeAt;
    forall i
      ensures OccursAt(value, "://", i) <==> SchemeAt(value, i)
    {
      SchemeIsSpelled(value, i);
    }
    forall i, j | CredentialsAt(value, i, j)
      ensures UrlAt(value) == Some((i, j)) && ':' in UserInfo(value)
    {
      CredentialsFound(value, i, j);
    }
    if HasUrlCredentials(value) {
      var (i, j) := UrlAt(value).value;
      var k :| 0 <= k < |UserInfo(value)| && UserInfo(value)[k] == ':';
      assert value[i + 3 + k] == ':';
      assert CredentialsAt(value, i, j);
    }
  }

  lemma CredentialsFound(value: string, i: int, j: int)
    requires CredentialsAt(value, i, j)
    ensures UrlAt(value) == Some((i, j)) && ':' in UserInfo(value)
  {
    forall m | 0 <= m <= i
      ensures OccursAt(value, "://", m) <==> SchemeAt(value, m)
    {
      SchemeIsSpelled(value, m);
    }
    UrlIs(value, i, j);
    var m :| i + 3 <= m < j && value[m] == ':';
    assert value[i + 3..j][m - i - 3] == ':';
  }

  // ----- The law -----

  /** An assignment line keeps everything up to its value. Of a value with URL credentials what
      stands between `://` and `@` becomes `<REDACTED>:<REDACTED>`; any other value becomes
      `<REDACTED>` exactly when the trimmed line holds one of the eight words, in its key or
      anywhere; and otherwise the line comes back unchanged. */
  lemma AssignmentLineIsExact(p: Parts)
    requires IsAssignmentText(p)
    ensures var line := Before(p) + p.value + p.tail;
            && (forall i, j :: CredentialsAt(p.value, i, j) ==>
                  ScrubLine(line) == Before(p) + (p.value[..i + 3] + "<REDACTED>:<REDACTED>" + p.value[j..]))
            && ((forall i, j :: !CredentialsAt(p.value, i, j)) ==>
                  ScrubLine(line) ==
                  if HoldsSecretWord(p.dash + p.key + [p.sep] + p.gap + p.value) then Before(p) + "<REDACTED>"
                    else line)
  {
    hide IsAssignmentText, IsAssignment, HasUrlCredentials, NamesSecret, HoldsSecretWord, CredentialsAt, UrlAt, Before;
    hide Text, Trimmed, ScrubLine;
    AssignmentIsSpelled(p);
    TextIsSpelled(p);
    ScrubsAssignments(p);
    CredentialsAreSpelled(p.value);
    TrimmedIsSpelled(p);
    SecretWordsAreSpelled(Trimmed(p));
    forall i, j | CredentialsAt(p.value, i, j)
      ensures ScrubLine(Text(p)) == Before(p) + (p.value[..i + 3] + "<REDACTED>:<REDACTED>" + p.value[j..])
    {
      CredentialsAreInside(p.value, i, j);
    }
  }

  lemma TrimmedIsSpelled(p: Parts)
    ensures Trimmed(p) == p.dash + p.key + [p.sep] + p.gap + p.value
  {
  }

  lemma CredentialsAreInside(value: string, i: int, j: int)
    requires CredentialsAt(value, i, j)
    ensures 0 <= i && i + 3 <= j < |value|
  {
  }

  lemma WordInPart(a: string, s: string, b: string)
    requires HoldsSecretWord(s)
    ensures HoldsSecretWord(a + s + b)
  {
    hide Contains, Upper, HoldsSecretWord;
    SecretWordsAreSpelled(s);
    SecretWordsAreSpelled(a + s + b);
    var t :| t in SECRET_PATTERNS && Contains(Upper(s), t);
    UpperConcat(a, s);
    UpperConcat(a + s, b);
    ContainsInside(Upper(a), Upper(s), Upper(b), t);
  }

  /** In particular a key that holds one of the eight words hides its value. */
  lemma SecretKeyIsMasked(p: Parts)
    requires IsAssignmentText(p) && HoldsSecretWord(p.key) && forall i, j :: !CredentialsAt(p.value, i, j)
    ensures ScrubLine(Before(p) + p.value + p.tail) == Before(p) + "<REDACTED>"
  {
    hide IsAssignmentText, HoldsSecretWord, CredentialsAt, Before, ScrubLine;
    AssignmentLineIsExact(p);
    WordInPart(p.dash, p.key, [p.sep] + p.gap + p.value);
    assert p.dash + p.key + ([p.sep] + p.gap + p.value) == p.dash + p.key + [p.sep] + p.gap + p.value;
  }

  /** A line that is no assignment comes back unchanged. */
  lemma OtherLinesStay(line: string)
    requires forall p :: IsAssignmentText(p) ==> Before(p) + p.value + p.tail != line
    ensures ScrubLine(line) == line
  {
    hide IsAssignmentText, IsAssignment, Before, ScrubLine, Text;
    forall p
      ensures !(IsAssignment(p) && Text(p) == line)
    {
      AssignmentIsSpelled(p);
      TextIsSpelled(p);
    }
    ScrubLineIsExact(line);
  }
}
