/** Scrubbing secrets out of compose text, line by line. ASCII text. */
module Scrubber {
  import opened Types
  import opened Strings
  import opened Redaction

  const SECRET_PATTERNS: seq<string> :=
    ["PASSWORD", "PASSWD", "SECRET", "TOKEN", "API_KEY", "PRIVATE_KEY", "AUTH", "CREDENTIAL"]

  const MASK: string := "<REDACTED>"

  const USER_MASK: string := "<REDACTED>:<REDACTED>"

  // ----- Characters and trimming -----

  predicate IsUpper(c: char) { 'A' <= c <= 'Z' }

  predicate IsKeyChar(c: char) {
    IsUpper(c) || 'a' <= c <= 'z' || IsDigit(c) || c == '_' || c == '.' || c == '-'
  }

  predicate IsEnvChar(c: char) {
    IsUpper(c) || IsDigit(c) || c == '_'
  }

  function Upper(s: string): string {
    seq(|s|, i requires 0 <= i < |s| => if 'a' <= s[i] <= 'z' then (s[i] as int - 32) as char else s[i])
  }

  /** `s` without its trailing whitespace. */
  function TrimEnd(s: string): (r: string)
    ensures r <= s && (r != "" ==> !IsSpace(r[|r| - 1]))
    ensures forall i :: |r| <= i < |s| ==> IsSpace(s[i])
  {
    if s != "" && IsSpace(s[|s| - 1]) then TrimEnd(s[..|s| - 1]) else s
  }

  function Trim(s: string): string {
    TrimEnd(s[LeadingSpace(s)..])
  }

  // ----- One line -----

  /** Length of the leading run of key characters. */
  function KeyRun(s: string): (n: nat)
    ensures n <= |s| && (forall i :: 0 <= i < n ==> IsKeyChar(s[i])) && (n < |s| ==> !IsKeyChar(s[n]))
  {
    if s != "" && IsKeyChar(s[0]) then
      var n := KeyRun(s[1..]);
      assert forall i :: 1 <= i < n + 1 ==> s[i] == s[1..][i - 1];
      n + 1
    else 0
  }

  /** An upper-snake name with at least one letter: what a colon may introduce. */
  predicate IsEnvKey(key: string) {
    (forall i :: 0 <= i < |key| ==> IsEnvChar(key[i])) && exists i :: 0 <= i < |key| && IsUpper(key[i])
  }

  function AssignmentKeyLen(body: string): Option<nat> {
    var n := KeyRun(body);
    if n == 0 || n == |body| then None
    else if body[n] == '=' then Some(n)
    else if body[n] == ':' then
      if !IsEnvKey(body[..n]) || AllSpace(body[n + 1..]) then None else Some(n)
    else None
  }

  /** First `://` and the first `@` after it. */
  function UrlAt(value: string): (r: Option<(nat, nat)>)
    ensures r.Some? ==> r.value.0 + 3 <= r.value.1 < |value|
  {
    var scheme := IndexOf(value, "://");
    if scheme.None? then None
    else
      var at := FindChar(value, '@', scheme.value + 3);
      if at.None? then None else Some((scheme.value, at.value))
  }

  function UserInfo(value: string): string
    requires UrlAt(value).Some?
  {
    var (scheme, at) := UrlAt(value).value;
    value[scheme + 3..at]
  }

  predicate HasUrlCredentials(value: string) {
    UrlAt(value).Some? && ':' in UserInfo(value)
  }

  /** `value` with what stands between the scheme and the `@` replaced. */
  function Splice(value: string, scheme: nat, at: nat, mask: string): string
    requires scheme + 3 <= at <= |value|
  {
    value[..scheme + 3] + mask + value[at..]
  }

  function ScrubUrl(value: string): string {
    var u := UrlAt(value);
    if u.None? then value else Splice(value, u.value.0, u.value.1, USER_MASK)
  }

  predicate NamesSecret(text: string) {
    exists p :: p in SECRET_PATTERNS && Contains(Upper(text), p)
  }

  /** What replaces a value, if anything does. */
  function Replacement(trimmed: string, value: string): Option<string> {
    if HasUrlCredentials(value) then Some(ScrubUrl(value))
    else if NamesSecret(trimmed) then Some(MASK)
    else None
  }

  /** The assignment on a trimmed line: length of the list dash, and where the value starts
      after it. Blank lines, comments and other YAML structure have none. */
  function FindAssignment(trimmed: string): (r: Option<(nat, nat)>)
    ensures r.Some? ==> r.value.0 + r.value.1 <= |trimmed|
  {
    if trimmed == "" || trimmed[0] == '#' then None
    else
      var dash := if StartsWith(trimmed, "- ") then 2 else 0;
      var body := trimmed[dash..];
      var keyLen := AssignmentKeyLen(body);
      if keyLen.None? then None
      else
        var span := ValueSpan(body, keyLen.value, Assignment);
        if span.None? then None
        else
          assert span.value.start <= |body| by { SpanIsExact(body, keyLen.value, Assignment, span.value); }
          Some((dash, span.value.start))
  }

  function ScrubLine(line: string): string {
    var trimmed := Trim(line);
    var found := FindAssignment(trimmed);
    if found.None? then line
    else
      var valueAt := found.value.0 + found.value.1;
      var replacement := Replacement(trimmed, trimmed[valueAt..]);
      if replacement.None? then line
      else line[..LeadingSpace(line)] + trimmed[..valueAt] + replacement.value
  }

  // ----- A line as an assignment -----

  /** The pieces of an assignment line, from its indent to its trailing whitespace. */
  datatype Parts = Parts(indent: string, dash: string, key: string, sep: char, gap: string, value: string, tail: string)

  predicate IsWord(value: string) {
    value != "" ==> !IsSpace(value[0]) && !IsSpace(value[|value| - 1])
  }

  predicate IsAssignment(p: Parts) {
    && AllSpace(p.indent) && AllSpace(p.gap) && AllSpace(p.tail)
    && (p.dash == "" || p.dash == "- ")
    && p.key != "" && (forall i :: 0 <= i < |p.key| ==> IsKeyChar(p.key[i]))
    && (p.sep == '=' || (p.sep == ':' && IsEnvKey(p.key) && p.value != ""))
    && IsWord(p.value)
    && (p.value == "" ==> p.gap == "")
  }

  function Body(p: Parts): string {
    p.key + [p.sep] + p.gap + p.value
  }

  function Trimmed(p: Parts): string {
    p.dash + Body(p)
  }

  function Text(p: Parts): string {
    p.indent + Trimmed(p) + p.tail
  }

  /** The scrubbed line: the value replaced and the trailing whitespace gone, or the line
      unchanged. */
  function ScrubbedText(p: Parts): string {
    var r := Replacement(Trimmed(p), p.value);
    if r.None? then Text(p) else Text(p.(value := r.value, tail := ""))
  }

  lemma LeadingSpaceIs(s: string, n: nat)
    requires n <= |s| && (forall i :: 0 <= i < n ==> IsSpace(s[i])) && (n < |s| ==> !IsSpace(s[n]))
    ensures LeadingSpace(s) == n
  {
    var m := LeadingSpace(s);
    assert !(m < n) && !(n < m);
  }

  lemma TrimEndIs(s: string, n: nat)
    requires n <= |s| && (n > 0 ==> !IsSpace(s[n - 1])) && (forall i :: n <= i < |s| ==> IsSpace(s[i]))
    ensures TrimEnd(s) == s[..n]
  {
    var r := TrimEnd(s);
    assert r == s[..|r|];
    assert !(|r| < n) && !(n < |r|);
  }

  lemma KeyRunIs(s: string, n: nat)
    requires n < |s| && (forall i :: 0 <= i < n ==> IsKeyChar(s[i])) && !IsKeyChar(s[n])
    ensures KeyRun(s) == n
  {
    var m := KeyRun(s);
    assert !(m < n) && !(n < m);
  }

  lemma LastOfBody(p: Parts)
    requires IsAssignment(p)
    ensures Trimmed(p) != "" && !IsSpace(Trimmed(p)[|Trimmed(p)| - 1]) && !IsSpace(Trimmed(p)[0])
  {
    var t := Trimmed(p);
    if p.value != "" {
      assert t[|t| - 1] == p.value[|p.value| - 1];
    } else {
      assert t[|t| - 1] == p.sep;
    }
    assert t[0] == (if p.dash == "" then p.key[0] else '-');
  }

  lemma TrimOfText(p: Parts)
    requires IsAssignment(p)
    ensures LeadingSpace(Text(p)) == |p.indent| && Text(p)[..|p.indent|] == p.indent
    ensures Trim(Text(p)) == Trimmed(p)
  {
    LastOfBody(p);
    assert AllSpace(p.indent) && AllSpace(p.tail);
    hide IsAssignment, Trimmed, LeadingSpace, TrimEnd;
    SpacedTrims(p.indent, Trimmed(p), p.tail);
  }

  lemma SpacedTrims(indent: string, t: string, tail: string)
    requires AllSpace(indent) && AllSpace(tail) && t != "" && !IsSpace(t[0]) && !IsSpace(t[|t| - 1])
    ensures var line := indent + t + tail;
            LeadingSpace(line) == |indent| && line[..|indent|] == indent && Trim(line) == t
  {
    hide LeadingSpace, TrimEnd;
    var line := indent + t + tail;
    assert line[|indent|] == t[0];
    assert forall i :: 0 <= i < |indent| ==> line[i] == indent[i];
    LeadingSpaceIs(line, |indent|);
    assert line[|indent|..] == t + tail;
    TailTrims(t, tail);
  }

  lemma TailTrims(t: string, tail: string)
    requires AllSpace(tail) && t != "" && !IsSpace(t[|t| - 1])
    ensures TrimEnd(t + tail) == t
  {
    var rest := t + tail;
    assert forall i :: |t| <= i < |rest| ==> rest[i] == tail[i - |t|];
    TrimEndIs(rest, |t|);
    assert rest[..|t|] == t;
  }

  lemma DashOfTrimmed(p: Parts)
    requires IsAssignment(p)
    ensures |p.dash| <= |Trimmed(p)|
    ensures |p.dash| == if StartsWith(Trimmed(p), "- ") then 2 else 0
    ensures Trimmed(p)[|p.dash|..] == Body(p) && Trimmed(p)[..|p.dash|] == p.dash
    ensures Trimmed(p)[0] != '#'
  {
    var t := Trimmed(p);
    if p.dash == "- " {
      assert t[..2] == "- ";
    } else {
      assert t == Body(p);
      assert t[0] == p.key[0] && IsKeyChar(t[0]);
      assert t[1] == if |p.key| > 1 then p.key[1] else p.sep;
      assert t[1] != ' ';
      assert t[0..2][1] == t[1];
    }
  }

  lemma SpanOfBody(p: Parts)
    requires IsAssignment(p)
    ensures AssignmentKeyLen(Body(p)) == Some(|p.key|)
    ensures ValueSpan(Body(p), |p.key|, Assignment) == Some(Span(|p.key| + 1 + |p.gap|, |Body(p)|))
  {
    var b, n := Body(p), |p.key|;
    assert b[n] == p.sep;
    assert forall i :: 0 <= i < n ==> b[i] == p.key[i];
    KeyRunIs(b, n);
    assert b[..n] == p.key;
    var span := Span(n + 1 + |p.gap|, |b|);
    assert forall i :: n + 1 <= i < span.start ==> b[i] == p.gap[i - n - 1];
    assert span.start < |b| ==> b[span.start] == p.value[0];
    SpanIsExact(b, n, Assignment, span);
    if p.value != "" {
      assert b[n + 1..][|p.gap|] == p.value[0];
      assert !AllSpace(b[n + 1..]);
    }
  }

  lemma ValueOfTrimmed(p: Parts)
    ensures var at := |p.dash| + |p.key| + 1 + |p.gap|;
            Trimmed(p)[at..] == p.value && Trimmed(p)[..at] == p.dash + p.key + [p.sep] + p.gap
  {
    assert Trimmed(p) == (p.dash + p.key + [p.sep] + p.gap) + p.value;
  }

  lemma FindsAssignments(p: Parts)
    requires IsAssignment(p)
    ensures FindAssignment(Trimmed(p)) == Some((|p.dash|, |p.key| + 1 + |p.gap|))
    ensures var at := |p.dash| + |p.key| + 1 + |p.gap|;
            Trimmed(p)[at..] == p.value && Trimmed(p)[..at] == p.dash + p.key + [p.sep] + p.gap
  {
    hide FindAssignment, AssignmentKeyLen, ValueSpan, StartsWith, Trimmed, Body, IsAssignment;
    LastOfBody(p);
    DashOfTrimmed(p);
    SpanOfBody(p);
    ValueOfTrimmed(p);
    FoundInBody(Trimmed(p), |p.key|, Span(|p.key| + 1 + |p.gap|, |Body(p)|));
  }

  lemma FoundInBody(trimmed: string, keyLen: nat, span: Span)
    requires trimmed != "" && trimmed[0] != '#'
    requires var dash := if StartsWith(trimmed, "- ") then 2 else 0;
             dash <= |trimmed| && AssignmentKeyLen(trimmed[dash..]) == Some(keyLen)
               && ValueSpan(trimmed[dash..], keyLen, Assignment) == Some(span)
    ensures FindAssignment(trimmed) == Some((if StartsWith(trimmed, "- ") then 2 else 0, span.start))
  {
    hide AssignmentKeyLen, ValueSpan, StartsWith;
  }

  /** Scrubbing a printed assignment replaces its value and nothing before it. */
  lemma ScrubsAssignments(p: Parts)
    requires IsAssignment(p)
    ensures ScrubLine(Text(p)) == ScrubbedText(p)
  {
    hide FindAssignment, Replacement, Trim, IsAssignment;
    TrimOfText(p);
    FindsAssignments(p);
    var r := Replacement(Trimmed(p), p.value);
    if r.Some? {
      assert Text(p.(value := r.value, tail := "")) == p.indent + (p.dash + p.key + [p.sep] + p.gap) + r.value;
    }
  }

  // ----- Every line is an assignment or is left alone -----

  lemma TrimEndSplits(s: string) returns (tail: string)
    ensures s == TrimEnd(s) + tail && AllSpace(tail)
  {
    var n := |TrimEnd(s)|;
    tail := s[n..];
    assert forall i :: 0 <= i < |tail| ==> tail[i] == s[n + i];
  }

  /** The whitespace around a line's trimmed text. */
  lemma TrimSplits(line: string) returns (indent: string, tail: string)
    ensures line == indent + Trim(line) + tail && AllSpace(indent) && AllSpace(tail)
    ensures Trim(line) != "" ==> !IsSpace(Trim(line)[|Trim(line)| - 1])
  {
    hide LeadingSpace, TrimEnd;
    var n := LeadingSpace(line);
    tail := TrimEndSplits(line[n..]);
    indent := line[..n];
    assert line == indent + line[n..];
  }

  lemma KeyAndValue(body: string) returns (p: Parts)
    requires body != "" && !IsSpace(body[|body| - 1])
    requires AssignmentKeyLen(body).Some?
    ensures IsAssignment(p) && p.indent == "" && p.dash == "" && p.tail == "" && Body(p) == body
  {
    NothingIsSpace();
    hide AssignmentKeyLen, IsEnvKey, LeadingSpace, AllSpace, IsWord;
    KeyLenIs(body);
    var n := AssignmentKeyLen(body).value;
    var start := n + 1 + LeadingSpace(body[n + 1..]);
    LeadingSpaceCovers(body, n + 1);
    ValueOfBody(body, n, start);
    p := Parts("", "", body[..n], body[n], body[n + 1..start], body[start..], "");
    assert body == body[..n] + [body[n]] + body[n + 1..start] + body[start..];
  }

  lemma NothingIsSpace()
    ensures AllSpace("")
  {
  }

  lemma KeyLenIs(body: string)
    requires AssignmentKeyLen(body).Some?
    ensures var n := AssignmentKeyLen(body).value;
            && 0 < n < |body| && (forall i :: 0 <= i < n ==> IsKeyChar(body[..n][i]))
            && (body[n] == '=' || (body[n] == ':' && IsEnvKey(body[..n]) && !AllSpace(body[n + 1..])))
  {
    hide IsEnvKey;
  }

  lemma ValueOfBody(body: string, n: nat, start: nat)
    requires body != "" && !IsSpace(body[|body| - 1])
    requires n < start <= |body| && SpaceBetween(body, n + 1, start) && (start < |body| ==> !IsSpace(body[start]))
    ensures IsWord(body[start..]) && AllSpace(body[n + 1..start])
    ensures body[start..] == "" ==> body[n + 1..start] == "" && body[n + 1..] == ""
  {
    assert forall i :: n + 1 <= i < start ==> body[n + 1..start][i - n - 1] == body[i];
    if start < |body| {
      assert body[start..][|body| - start - 1] == body[|body| - 1];
    } else {
      assert start == n + 1;
    }
  }

  lemma SeenBody(t: string) returns (dash: string, p: Parts)
    requires FindAssignment(t).Some? && !IsSpace(t[|t| - 1])
    ensures (dash == "" || dash == "- ") && t == dash + Body(p)
    ensures IsAssignment(p) && p.indent == "" && p.dash == "" && p.tail == ""
  {
    dash := if StartsWith(t, "- ") then "- " else "";
    assert t[..|dash|] == dash;
    var body := t[|dash|..];
    assert AssignmentKeyLen(body).Some?;
    assert body[|body| - 1] == t[|t| - 1];
    p := KeyAndValue(body);
    assert t == dash + body;
  }

  /** Whenever the scrubber sees an assignment, the line is the text of one. */
  lemma SeenIsAssignment(line: string) returns (p: Parts)
    requires FindAssignment(Trim(line)).Some?
    ensures IsAssignment(p) && Text(p) == line
  {
    hide FindAssignment, Trim;
    var indent, tail := TrimSplits(line);
    SeenIsNotBlank(Trim(line));
    var dash, q := SeenBody(Trim(line));
    p := q.(indent := indent, dash := dash, tail := tail);
    assert Body(p) == Body(q);
  }

  lemma SeenIsNotBlank(t: string)
    requires FindAssignment(t).Some?
    ensures t != ""
  {
  }

  /** Which lines the scrubber touches, and how: a line is the text of an assignment and is
      scrubbed as one, or it is no assignment's text and comes back unchanged. */
  lemma ScrubLineIsExact(line: string)
    ensures (exists p :: IsAssignment(p) && Text(p) == line) <==> FindAssignment(Trim(line)).Some?
    ensures forall p :: IsAssignment(p) && Text(p) == line ==> ScrubLine(line) == ScrubbedText(p)
    ensures (forall p :: !(IsAssignment(p) && Text(p) == line)) ==> ScrubLine(line) == line
  {
    hide FindAssignment, Trim, IsAssignment, Text, ScrubbedText;
    forall p | IsAssignment(p) && Text(p) == line
      ensures FindAssignment(Trim(line)).Some? && ScrubLine(line) == ScrubbedText(p)
    {
      TrimOfText(p);
      FindsAssignments(p);
      ScrubsAssignments(p);
    }
    if FindAssignment(Trim(line)).Some? {
      var p := SeenIsAssignment(line);
    }
  }

  // ----- Idempotence of one line -----

  lemma UrlIs(value: string, scheme: nat, at: nat)
    requires scheme + 3 <= at < |value| && OccursAt(value, "://", scheme) && value[at] == '@'
    requires forall j :: 0 <= j < scheme ==> !OccursAt(value, "://", j)
    requires Free(value, '@', scheme + 3, at)
    ensures UrlAt(value) == Some((scheme, at))
  {
    var i := IndexOf(value, "://");
    assert i == Some(scheme);
    FindCharAt(value, '@', scheme + 3, at);
  }

  lemma SchemeStays(value: string, scheme: nat, out: string)
    requires OccursAt(value, "://", scheme) && forall j :: 0 <= j < scheme ==> !OccursAt(value, "://", j)
    requires scheme + 3 <= |out| && out[..scheme + 3] == value[..scheme + 3]
    ensures OccursAt(out, "://", scheme) && forall j :: 0 <= j < scheme ==> !OccursAt(out, "://", j)
  {
    forall j | 0 <= j <= scheme
      ensures OccursAt(out, "://", j) == OccursAt(value, "://", j)
    {
      SamePrefixSameOccurrence(value, out, "://", j, scheme + 3);
    }
  }

  lemma SamePrefixSameOccurrence(a: string, b: string, t: string, j: nat, n: nat)
    requires n <= |a| && n <= |b| && a[..n] == b[..n] && j + |t| <= n
    ensures OccursAt(a, t, j) == OccursAt(b, t, j)
  {
    assert a[j..j + |t|] == a[..n][j..j + |t|];
    assert b[j..j + |t|] == b[..n][j..j + |t|];
  }

  /** Replacing the user info leaves the scheme and the `@` where a second pass finds them. */
  lemma SwapUserInfo(value: string, scheme: nat, at: nat, mask: string)
    requires UrlAt(value) == Some((scheme, at)) && '@' !in mask
    ensures var out := Splice(value, scheme, at, mask);
            UrlAt(out) == Some((scheme, scheme + 3 + |mask|)) && UserInfo(out) == mask
  {
    var out := Splice(value, scheme, at, mask);
    assert out[..scheme + 3] == value[..scheme + 3];
    SchemeStays(value, scheme, out);
    var at' := scheme + 3 + |mask|;
    assert out[scheme + 3..at'] == mask && out[at'] == value[at];
    assert forall i :: scheme + 3 <= i < at' ==> out[i] == mask[i - scheme - 3];
    UrlIs(out, scheme, at');
  }

  lemma SpliceAgain(value: string, scheme: nat, at: nat, mask: string)
    requires scheme + 3 <= at < |value|
    ensures var out := Splice(value, scheme, at, mask);
            && Splice(out, scheme, scheme + 3 + |mask|, mask) == out
            && out != "" && out[0] == value[0] && out[|out| - 1] == value[|value| - 1]
  {
    var out := Splice(value, scheme, at, mask);
    assert out[..scheme + 3] == value[..scheme + 3] && out[scheme + 3 + |mask|..] == value[at..];
    assert out[|out| - 1] == value[at..][|value| - at - 1];
  }

  /** A scrubbed URL still has its mask for credentials, and scrubs to itself. */
  lemma ScrubUrlAgain(value: string)
    requires HasUrlCredentials(value)
    ensures HasUrlCredentials(ScrubUrl(value)) && ScrubUrl(ScrubUrl(value)) == ScrubUrl(value)
    ensures ScrubUrl(value) != ""
    ensures ScrubUrl(value)[0] == value[0] && ScrubUrl(value)[|ScrubUrl(value)| - 1] == value[|value| - 1]
  {
    hide UrlAt, USER_MASK, Splice, UserInfo;
    var (scheme, at) := UrlAt(value).value;
    UserMaskIsUserInfo();
    SwapUserInfo(value, scheme, at, USER_MASK);
    SpliceAgain(value, scheme, at, USER_MASK);
  }

  lemma UserMaskIsUserInfo()
    ensures '@' !in USER_MASK && ':' in USER_MASK
  {
    assert USER_MASK[10] == ':';
  }

  lemma OccurrenceStarts(s: string, t: string, j: int)
    requires OccursAt(s, t, j) && t != ""
    ensures 0 <= j < |s| && s[j] == t[0]
  {
    assert s[j..j + |t|][0] == s[j];
  }

  lemma MaskIsPlain()
    ensures !HasUrlCredentials(MASK) && IsWord(MASK) && MASK != ""
  {
    assert ':' !in MASK;
    forall j
      ensures !OccursAt(MASK, "://", j)
    {
      if OccursAt(MASK, "://", j) {
        OccurrenceStarts(MASK, "://", j);
      }
    }
  }

  lemma ReplacementIsWord(trimmed: string, value: string)
    requires IsWord(value) && Replacement(trimmed, value).Some?
    ensures IsWord(Replacement(trimmed, value).value) && Replacement(trimmed, value).value != ""
  {
    MaskIsPlain();
    if HasUrlCredentials(value) {
      ScrubUrlAgain(value);
    }
  }

  /** Scrubbing a value again gives it back, whichever words the line still contains. */
  lemma ReplacementAgain(trimmed: string, trimmed': string, value: string)
    requires Replacement(trimmed, value).Some?
    ensures var once := Replacement(trimmed, value).value;
            Replacement(trimmed', once) == Some(once) || Replacement(trimmed', once) == None
  {
    MaskIsPlain();
    if HasUrlCredentials(value) {
      ScrubUrlAgain(value);
    }
  }

  /** Scrubbing a line twice is scrubbing it once. */
  lemma ScrubLineTwice(line: string)
    ensures ScrubLine(ScrubLine(line)) == ScrubLine(line)
  {
    hide FindAssignment, Replacement, Trim, IsAssignment, Text;
    if FindAssignment(Trim(line)).Some? {
      var p := SeenIsAssignment(line);
      ScrubsAssignments(p);
      var r := Replacement(Trimmed(p), p.value);
      if r.Some? {
        var q := p.(value := r.value, tail := "");
        ReplacedIsAssignment(p, r.value);
        ScrubsAssignments(q);
        ReplacementAgain(Trimmed(p), Trimmed(q), p.value);
        assert q.(value := r.value, tail := "") == q;
      }
    }
  }

  lemma ReplacedIsAssignment(p: Parts, value: string)
    requires IsAssignment(p) && Replacement(Trimmed(p), p.value) == Some(value)
    ensures IsAssignment(p.(value := value, tail := ""))
  {
    ReplacementIsWord(Trimmed(p), p.value);
  }

  // ----- Replaced and kept lines -----

  /** The line's value is replaced; its surrounding whitespace plays no part in that. */
  predicate IsReplaced(line: string) {
    var trimmed := Trim(line);
    var found := FindAssignment(trimmed);
    found.Some? && Replacement(trimmed, trimmed[found.value.0 + found.value.1..]).Some?
  }

  lemma KeptLine(line: string)
    requires !IsReplaced(line)
    ensures ScrubLine(line) == line
  {
    hide Trim, FindAssignment, Replacement;
  }

  /** A replaced line loses its trailing whitespace. */
  lemma ReplacedEndsInText(line: string)
    requires IsReplaced(line)
    ensures ScrubLine(line) != "" && !IsSpace(ScrubLine(line)[|ScrubLine(line)| - 1])
  {
    hide FindAssignment, Replacement, Trim, IsAssignment;
    var p := SeenIsAssignment(line);
    TrimOfText(p);
    FindsAssignments(p);
    ScrubsAssignments(p);
    var value := Replacement(Trimmed(p), p.value).value;
    assert IsWord(p.value) by { WordOfAssignment(p); }
    ReplacementIsWord(Trimmed(p), p.value);
    var out := Text(p.(value := value, tail := ""));
    assert out[|out| - 1] == value[|value| - 1];
  }

  lemma WordOfAssignment(p: Parts)
    requires IsAssignment(p)
    ensures IsWord(p.value)
  {
  }

  lemma CrDoesNotCount(line: string)
    ensures Trim(line + "\r") == Trim(line) && IsReplaced(line + "\r") == IsReplaced(line)
  {
    hide FindAssignment, Replacement;
    var n, longer := LeadingSpace(line), line + "\r";
    assert forall i :: 0 <= i < |line| ==> longer[i] == line[i];
    if n == |line| {
      LeadingSpaceIs(longer, |longer|);
      assert longer[|longer|..] == "" && line[n..] == "";
    } else {
      LeadingSpaceIs(longer, n);
      var rest := longer[n..];
      assert rest[..|rest| - 1] == line[n..];
    }
  }

  // ----- Noninterference on one line -----

  /** Two assignments with the same key, layout and list dash. */
  predicate SameLayout(p: Parts, q: Parts) {
    p.indent == q.indent && p.dash == q.dash && p.key == q.key && p.sep == q.sep && p.gap == q.gap
  }

  lemma UpperConcat(a: string, b: string)
    ensures Upper(a + b) == Upper(a) + Upper(b)
  {
  }

  lemma ContainsInside(a: string, s: string, b: string, t: string)
    requires Contains(s, t)
    ensures Contains(a + s + b, t)
  {
    var i := IndexOf(s, t).value;
    var whole := a + s + b;
    assert whole[|a| + i..|a| + i + |t|] == s[i..i + |t|];
    assert OccursAt(whole, t, |a| + i);
  }

  /** A secret word in the key is a secret word in the line. */
  lemma KeyNamesLine(p: Parts)
    requires NamesSecret(p.key)
    ensures NamesSecret(Trimmed(p))
  {
    hide Contains, Upper;
    var t :| t in SECRET_PATTERNS && Contains(Upper(p.key), t);
    var after := [p.sep] + p.gap + p.value;
    assert Trimmed(p) == p.dash + p.key + after;
    UpperConcat(p.dash, p.key);
    UpperConcat(p.dash + p.key, after);
    ContainsInside(Upper(p.dash), Upper(p.key), Upper(after), t);
  }

  /** The plain value of a secret-named assignment never shows in the output. */
  lemma SecretValuesDoNotShow(p: Parts, q: Parts)
    requires IsAssignment(p) && IsAssignment(q) && SameLayout(p, q) && NamesSecret(p.key)
    requires !HasUrlCredentials(p.value) && !HasUrlCredentials(q.value)
    ensures ScrubLine(Text(p)) == ScrubLine(Text(q)) == Text(p.(value := MASK, tail := ""))
  {
    hide IsAssignment, NamesSecret, HasUrlCredentials;
    KeyNamesLine(p);
    KeyNamesLine(q);
    ScrubsAssignments(p);
    ScrubsAssignments(q);
  }

  /** A URL value with credentials: everything up to `://`, the user info, and the rest from `@`. */
  predicate IsUrl(value: string, scheme: string, userinfo: string, rest: string) {
    && value == scheme + "://" + userinfo + rest
    && (forall j :: 0 <= j < |scheme| ==> !OccursAt(scheme + "://", "://", j))
    && '@' !in userinfo && ':' in userinfo
    && rest != "" && rest[0] == '@'
  }

  lemma UrlScrubs(value: string, scheme: string, userinfo: string, rest: string)
    requires IsUrl(value, scheme, userinfo, rest)
    ensures HasUrlCredentials(value)
    ensures ScrubUrl(value) == scheme + "://" + USER_MASK + rest
  {
    var n := |scheme|;
    var at := n + 3 + |userinfo|;
    assert value[..n + 3] == (scheme + "://")[..n + 3];
    SchemeStays(scheme + "://", n, value);
    assert value[n + 3..at] == userinfo && value[at..] == rest && value[at] == rest[0];
    assert forall i :: n + 3 <= i < at ==> value[i] == userinfo[i - n - 3];
    UrlIs(value, n, at);
  }

  /** A URL with credentials comes apart at its first `://` and the first `@` after it. */
  lemma UrlComesApart(value: string) returns (scheme: string, userinfo: string, rest: string)
    requires HasUrlCredentials(value)
    ensures IsUrl(value, scheme, userinfo, rest)
  {
    var (n, at) := UrlAt(value).value;
    scheme, userinfo, rest := value[..n], value[n + 3..at], value[at..];
    assert value[n..n + 3] == "://";
    assert value == scheme + "://" + userinfo + rest;
    assert (scheme + "://")[..n + 3] == value[..n + 3];
    SchemeStays(value, n, scheme + "://");
  }

  /** What stands between `://` and the first `@` after it never shows in the output, whatever
      the key is called. */
  lemma UrlCredentialsDoNotShow(p: Parts, q: Parts, scheme: string, userinfo: string, userinfo': string, rest: string)
    requires IsAssignment(p) && IsAssignment(q) && SameLayout(p, q)
    requires IsUrl(p.value, scheme, userinfo, rest) && IsUrl(q.value, scheme, userinfo', rest)
    ensures ScrubLine(Text(p)) == ScrubLine(Text(q)) == Text(p.(value := scheme + "://" + USER_MASK + rest, tail := ""))
  {
    hide IsAssignment, HasUrlCredentials, ScrubUrl;
    UrlScrubs(p.value, scheme, userinfo, rest);
    UrlScrubs(q.value, scheme, userinfo', rest);
    ScrubsAssignments(p);
    ScrubsAssignments(q);
  }

  /** And that is all that is hidden: two lines of one layout with URL credentials scrub alike
      if and only if their values have the same scheme and agree from the first `@` on. */
  lemma UrlLinesScrubAlike(p: Parts, q: Parts, scheme: string, userinfo: string, rest: string,
                           scheme': string, userinfo': string, rest': string)
    requires IsAssignment(p) && IsAssignment(q) && SameLayout(p, q)
    requires IsUrl(p.value, scheme, userinfo, rest) && IsUrl(q.value, scheme', userinfo', rest')
    ensures ScrubLine(Text(p)) == ScrubLine(Text(q)) <==> scheme == scheme' && rest == rest'
  {
    hide IsAssignment, HasUrlCredentials, ScrubUrl, IsUrl, Trimmed;
    UrlCredentialsDoNotShow(p, p, scheme, userinfo, userinfo, rest);
    UrlCredentialsDoNotShow(q, q, scheme', userinfo', userinfo', rest');
    var v, w := scheme + "://" + USER_MASK + rest, scheme' + "://" + USER_MASK + rest';
    SameLineSameValue(p, q, v, w);
    if v == w {
      MaskedUrlsDiffer(p.value, scheme, userinfo, rest, q.value, scheme', userinfo', rest');
    }
  }

  lemma SameLineSameValue(p: Parts, q: Parts, v: string, w: string)
    requires SameLayout(p, q)
    ensures Text(p.(value := v, tail := "")) == Text(q.(value := w, tail := "")) <==> v == w
  {
    var before := p.indent + (p.dash + (p.key + [p.sep] + p.gap));
    assert Text(p.(value := v, tail := "")) == before + v;
    assert Text(q.(value := w, tail := "")) == before + w;
    assert (before + v)[|before|..] == v && (before + w)[|before|..] == w;
  }

  lemma MaskedUrlsDiffer(value: string, scheme: string, userinfo: string, rest: string,
                         value': string, scheme': string, userinfo': string, rest': string)
    requires IsUrl(value, scheme, userinfo, rest) && IsUrl(value', scheme', userinfo', rest')
    requires scheme + "://" + USER_MASK + rest == scheme' + "://" + USER_MASK + rest'
    ensures scheme == scheme' && rest == rest'
  {
    hide USER_MASK;
    var out := scheme + "://" + USER_MASK + rest;
    SchemeOfMasked(scheme, USER_MASK + rest);
    SchemeOfMasked(scheme', USER_MASK + rest');
    assert out == scheme + "://" + (USER_MASK + rest) && out == scheme' + "://" + (USER_MASK + rest');
    assert |scheme| == |scheme'|;
    var n := |scheme|;
    assert out[..n] == scheme && out[..n] == scheme';
    assert out[n + 3 + |USER_MASK|..] == rest && out[n + 3 + |USER_MASK|..] == rest';
  }

  lemma SchemeOfMasked(scheme: string, after: string)
    requires forall j :: 0 <= j < |scheme| ==> !OccursAt(scheme + "://", "://", j)
    ensures IndexOf(scheme + "://" + after, "://") == Some(|scheme|)
  {
    var out := scheme + "://" + after;
    assert out[..|scheme| + 3] == (scheme + "://")[..|scheme| + 3];
    SchemeStays(scheme + "://", |scheme|, out);
    var i := IndexOf(out, "://");
    assert i.Some?;
  }

  lemma PlainScheme(scheme: string)
    requires ':' !in scheme
    ensures forall j :: 0 <= j < |scheme| ==> !OccursAt(scheme + "://", "://", j)
  {
    forall j | 0 <= j < |scheme|
      ensures !OccursAt(scheme + "://", "://", j)
    {
      if OccursAt(scheme + "://", "://", j) {
        OccurrenceStarts(scheme + "://", "://", j);
      }
    }
  }

  /** `postgres://u:p@ss@h` holds a password with an `@` of its own: what follows the first `@`
      is left in the line. */
  lemma RawAtSignShows()
    ensures ScrubUrl("postgres" + "://" + "u:p" + "@ss@h") == "postgres" + "://" + USER_MASK + "@ss@h"
  {
    hide ScrubUrl, OccursAt, HasUrlCredentials, USER_MASK;
    var scheme, userinfo, rest := "postgres", "u:p", "@ss@h";
    PlainScheme(scheme);
    assert userinfo[1] == ':';
    UrlScrubs(scheme + "://" + userinfo + rest, scheme, userinfo, rest);
  }
}
