/** Locating the value that belongs to a key already matched on a line. ASCII text. */
module Redaction {
  import opened Types
  import opened Strings

  datatype ValueSyntax = JsonMember | QuotedArgument | OptionArgument | Assignment

  datatype Span = Span(start: nat, end: nat)

  predicate IsSpace(c: char) {
    c == ' ' || '\t' <= c <= '\r'
  }

  predicate AllSpace(s: string) {
    forall i :: 0 <= i < |s| ==> IsSpace(s[i])
  }

  /** Length of the leading whitespace of `s`. */
  function LeadingSpace(s: string): (n: nat)
    ensures n <= |s| && (forall i :: 0 <= i < n ==> IsSpace(s[i])) && (n < |s| ==> !IsSpace(s[n]))
  {
    if s != "" && IsSpace(s[0]) then
      var n := LeadingSpace(s[1..]);
      assert forall i :: 1 <= i < n + 1 ==> s[i] == s[1..][i - 1];
      n + 1
    else 0
  }

  /** First place at or after `from` where `c` stands. */
  function FindChar(s: string, c: char, from: nat): (r: Option<nat>)
    requires from <= |s|
    ensures r.Some? ==> from <= r.value < |s| && s[r.value] == c && Free(s, c, from, r.value)
    ensures r.None? ==> Free(s, c, from, |s|)
    decreases |s| - from
  {
    if from == |s| then None else if s[from] == c then Some(from) else FindChar(s, c, from + 1)
  }

  /** `c` stands nowhere in `s[from..to]`. */
  predicate Free(s: string, c: char, from: int, to: int) {
    0 <= from <= to <= |s| && forall i :: from <= i < to ==> s[i] != c
  }

  /** First whitespace at or after `from`, or the end. */
  function WordEnd(s: string, from: nat): (e: nat)
    requires from <= |s|
    ensures from <= e <= |s| && (e < |s| ==> IsSpace(s[e])) && (forall i :: from <= i < e ==> !IsSpace(s[i]))
    decreases |s| - from
  {
    if from == |s| || IsSpace(s[from]) then from else WordEnd(s, from + 1)
  }

  function QuotedRun(line: string, from: nat, quotes: string): Option<Span> {
    if from > |line| then None
    else
      var open := from + LeadingSpace(line[from..]);
      if open >= |line| || line[open] !in quotes then None
      else
        var close := FindChar(line, line[open], open + 1);
        if close.None? then None else Some(Span(open + 1, close.value))
  }

  function ValueSpan(line: string, keyEnd: nat, syntax: ValueSyntax): Option<Span> {
    if keyEnd > |line| then None
    else match syntax
      case JsonMember =>
        var colon := FindChar(line, ':', keyEnd);
        if colon.None? || !AllSpace(line[keyEnd..colon.value]) then None
        else QuotedRun(line, colon.value + 1, "\"")
      case QuotedArgument => QuotedRun(line, keyEnd, "\"'")
      case OptionArgument =>
        if keyEnd == |line| || !(line[keyEnd] == '=' || IsSpace(line[keyEnd])) then None
        else
          var start := keyEnd + 1 + LeadingSpace(line[keyEnd + 1..]);
          if start >= |line| then None else Some(Span(start, WordEnd(line, start)))
      case Assignment =>
        if keyEnd == |line| || !(line[keyEnd] == '=' || line[keyEnd] == ':') then None
        else Some(Span(keyEnd + 1 + LeadingSpace(line[keyEnd + 1..]), |line|))
  }

  // ----- What a span must be, independently of how it is found -----

  /** `line[from..to]` is whitespace. */
  predicate SpaceBetween(line: string, from: int, to: int) {
    0 <= from <= to <= |line| && forall i :: from <= i < to ==> IsSpace(line[i])
  }

  /** An opening quote right before the span, the same quote right after, none inside. */
  predicate IsQuoted(line: string, span: Span, quotes: string) {
    && 1 <= span.start <= span.end < |line|
    && line[span.start - 1] in quotes
    && line[span.end] == line[span.start - 1]
    && Free(line, line[span.start - 1], span.start, span.end)
  }

  /** The span is the value of the key ending at `keyEnd`: nothing but whitespace, at most one
      separator and an opening quote stands between them. */
  predicate Attached(line: string, keyEnd: nat, syntax: ValueSyntax, span: Span) {
    keyEnd <= |line| && keyEnd <= span.start <= span.end <= |line| &&
    match syntax
    case JsonMember =>
      IsQuoted(line, span, "\"")
      && exists c ::
          keyEnd <= c < span.start - 1 && line[c] == ':' && SpaceBetween(line, keyEnd, c)
          && SpaceBetween(line, c + 1, span.start - 1)
    case QuotedArgument =>
      IsQuoted(line, span, "\"'") && SpaceBetween(line, keyEnd, span.start - 1)
    case OptionArgument =>
      && keyEnd < span.start < span.end
      && (line[keyEnd] == '=' || IsSpace(line[keyEnd]))
      && SpaceBetween(line, keyEnd + 1, span.start)
      && (forall i :: span.start <= i < span.end ==> !IsSpace(line[i]))
      && (span.end < |line| ==> IsSpace(line[span.end]))
    case Assignment =>
      && keyEnd < span.start && span.end == |line|
      && (line[keyEnd] == '=' || line[keyEnd] == ':')
      && SpaceBetween(line, keyEnd + 1, span.start)
      && (span.start < |line| ==> !IsSpace(line[span.start]))
  }

  lemma LeadingSpaceCovers(line: string, from: nat)
    requires from <= |line|
    ensures SpaceBetween(line, from, from + LeadingSpace(line[from..]))
    ensures var open := from + LeadingSpace(line[from..]); open < |line| ==> !IsSpace(line[open])
  {
    var n := LeadingSpace(line[from..]);
    assert forall i :: from <= i < from + n ==> line[i] == line[from..][i - from];
  }

  /** Two ends of the same run of whitespace coincide. */
  lemma SpaceEndsOnce(line: string, from: int, open: int, open': int)
    requires SpaceBetween(line, from, open) && (open < |line| ==> !IsSpace(line[open]))
    requires SpaceBetween(line, from, open') && (open' < |line| ==> !IsSpace(line[open']))
    ensures open == open'
  {
  }

  lemma LeadingSpaceAt(line: string, from: nat, open: nat)
    requires SpaceBetween(line, from, open) && (open < |line| ==> !IsSpace(line[open]))
    ensures from + LeadingSpace(line[from..]) == open
  {
    LeadingSpaceCovers(line, from);
    SpaceEndsOnce(line, from, open, from + LeadingSpace(line[from..]));
  }

  lemma FindCharAt(s: string, c: char, from: nat, at: nat)
    requires from <= at < |s| && s[at] == c && Free(s, c, from, at)
    ensures FindChar(s, c, from) == Some(at)
  {
    var r := FindChar(s, c, from);
    assert r.Some?;
  }

  lemma QuotedRunIsExact(line: string, from: nat, quotes: string, span: Span)
    requires from <= |line| && forall q :: q in quotes ==> !IsSpace(q)
    ensures QuotedRun(line, from, quotes) == Some(span) <==>
            from < span.start && IsQuoted(line, span, quotes) && SpaceBetween(line, from, span.start - 1)
  {
    LeadingSpaceCovers(line, from);
    if from < span.start && IsQuoted(line, span, quotes) && SpaceBetween(line, from, span.start - 1) {
      LeadingSpaceAt(line, from, span.start - 1);
      FindCharAt(line, line[span.start - 1], span.start, span.end);
    }
  }

  lemma JsonSpanIsAttached(line: string, keyEnd: nat, span: Span)
    requires keyEnd <= |line| && ValueSpan(line, keyEnd, JsonMember) == Some(span)
    ensures Attached(line, keyEnd, JsonMember, span)
  {
    var c := FindChar(line, ':', keyEnd).value;
    assert forall i :: keyEnd <= i < c ==> line[i] == line[keyEnd..c][i - keyEnd];
    QuotedRunIsExact(line, c + 1, "\"", span);
    assert SpaceBetween(line, keyEnd, c);
  }

  lemma JsonSpanIsFound(line: string, keyEnd: nat, span: Span)
    requires keyEnd <= |line| && Attached(line, keyEnd, JsonMember, span)
    ensures ValueSpan(line, keyEnd, JsonMember) == Some(span)
  {
    hide QuotedRun, IsQuoted, SpaceBetween;
    var c :| keyEnd <= c < span.start - 1 && line[c] == ':' && SpaceBetween(line, keyEnd, c)
      && SpaceBetween(line, c + 1, span.start - 1);
    SpaceIsSlice(line, keyEnd, c);
    FindCharAt(line, ':', keyEnd, c);
    QuotedRunIsExact(line, c + 1, "\"", span);
  }

  lemma SpaceIsSlice(line: string, from: int, to: int)
    requires SpaceBetween(line, from, to)
    ensures AllSpace(line[from..to]) && Free(line, ':', from, to)
  {
  }

  lemma WordEndAt(s: string, from: nat, e: nat)
    requires from <= e <= |s| && (forall i :: from <= i < e ==> !IsSpace(s[i])) && (e < |s| ==> IsSpace(s[e]))
    ensures WordEnd(s, from) == e
  {
    var w := WordEnd(s, from);
    assert !(w < e) && !(e < w);
  }

  /** The finder is exact in all four syntaxes: it returns a span if and only if that span is
      the value of the matched key, so it never wanders to another key's value and never
      misses a value written in the syntax. */
  lemma SpanIsExact(line: string, keyEnd: nat, syntax: ValueSyntax, span: Span)
    ensures ValueSpan(line, keyEnd, syntax) == Some(span) <==> Attached(line, keyEnd, syntax, span)
  {
    hide QuotedRun, IsQuoted, SpaceBetween;
    if keyEnd <= |line| {
      match syntax {
        case JsonMember =>
          if ValueSpan(line, keyEnd, JsonMember) == Some(span) {
            JsonSpanIsAttached(line, keyEnd, span);
          }
          if Attached(line, keyEnd, JsonMember, span) {
            JsonSpanIsFound(line, keyEnd, span);
          }
        case QuotedArgument =>
          QuotedSpanIsExact(line, keyEnd, span);
        case OptionArgument =>
          OptionSpanIsExact(line, keyEnd, span);
        case Assignment =>
          AssignmentSpanIsExact(line, keyEnd, span);
      }
    }
  }

  lemma QuotedSpanIsExact(line: string, keyEnd: nat, span: Span)
    requires keyEnd <= |line|
    ensures ValueSpan(line, keyEnd, QuotedArgument) == Some(span) <==> Attached(line, keyEnd, QuotedArgument, span)
  {
    hide QuotedRun, Free;
    QuotedRunIsExact(line, keyEnd, "\"'", span);
  }

  lemma OptionSpanIsExact(line: string, keyEnd: nat, span: Span)
    requires keyEnd <= |line|
    ensures ValueSpan(line, keyEnd, OptionArgument) == Some(span) <==> Attached(line, keyEnd, OptionArgument, span)
  {
    hide LeadingSpace, WordEnd;
    if keyEnd < |line| {
      LeadingSpaceCovers(line, keyEnd + 1);
      if Attached(line, keyEnd, OptionArgument, span) {
        LeadingSpaceAt(line, keyEnd + 1, span.start);
        WordEndAt(line, span.start, span.end);
      }
    }
  }

  lemma AssignmentSpanIsExact(line: string, keyEnd: nat, span: Span)
    requires keyEnd <= |line|
    ensures ValueSpan(line, keyEnd, Assignment) == Some(span) <==> Attached(line, keyEnd, Assignment, span)
  {
    hide LeadingSpace;
    if keyEnd < |line| {
      LeadingSpaceCovers(line, keyEnd + 1);
      if Attached(line, keyEnd, Assignment, span) {
        LeadingSpaceAt(line, keyEnd + 1, span.start);
      }
    }
  }

  // ----- Printing and finding back -----

  /** A key with its value, written in one of the four syntaxes. `gap` is whitespace before the
      separator (JSON only) and `gap'` whitespace after it. */
  datatype Written = Written(before: string, gap: string, sep: char, gap': string, quote: char, value: string,
    after: string)

  predicate IsWritten(w: Written, syntax: ValueSyntax) {
    AllSpace(w.gap) && AllSpace(w.gap') &&
    match syntax
    case JsonMember => w.sep == ':' && w.quote == '"' && '"' !in w.value
    case QuotedArgument => w.gap == "" && (w.quote == '"' || w.quote == '\'') && w.quote !in w.value
    case OptionArgument =>
      w.gap == "" && (w.sep == '=' || IsSpace(w.sep)) && w.value != ""
      && (forall i :: 0 <= i < |w.value| ==> !IsSpace(w.value[i]))
      && (w.after != "" ==> IsSpace(w.after[0]))
    case Assignment =>
      w.gap == "" && (w.sep == '=' || w.sep == ':') && w.after == "" && (w.value != "" ==> !IsSpace(w.value[0]))
  }

  function LeadIn(w: Written, syntax: ValueSyntax): string {
    match syntax
    case JsonMember => w.gap + [w.sep] + w.gap' + [w.quote]
    case QuotedArgument => w.gap' + [w.quote]
    case OptionArgument => [w.sep] + w.gap'
    case Assignment => [w.sep] + w.gap'
  }

  function Closing(w: Written, syntax: ValueSyntax): string {
    match syntax
    case JsonMember => [w.quote]
    case QuotedArgument => [w.quote]
    case OptionArgument => ""
    case Assignment => ""
  }

  function Print(w: Written, syntax: ValueSyntax): string {
    w.before + LeadIn(w, syntax) + w.value + Closing(w, syntax) + w.after
  }

  /** Printing a value after a key and looking from the key's end finds exactly that value. */
  lemma FindsWhatWasPrinted(w: Written, syntax: ValueSyntax)
    requires IsWritten(w, syntax)
    ensures var line := Print(w, syntax);
            var start := |w.before| + |LeadIn(w, syntax)|;
            && ValueSpan(line, |w.before|, syntax) == Some(Span(start, start + |w.value|))
            && line[start..start + |w.value|] == w.value
  {
    hide IsWritten, Spells, Attached, ValueSpan, Print, LeadIn;
    var line := Print(w, syntax);
    var start := |w.before| + |LeadIn(w, syntax)|;
    PrintSpells(w, syntax);
    SpelledIsAttached(w, syntax, line, Span(start, start + |w.value|));
    SpanIsExact(line, |w.before|, syntax, Span(start, start + |w.value|));
  }

  lemma SpelledIsAttached(w: Written, syntax: ValueSyntax, line: string, span: Span)
    requires IsWritten(w, syntax) && Spells(w, syntax, line, span)
    ensures Attached(line, |w.before|, syntax, span)
  {
    hide IsWritten, Spells, Attached;
    match syntax {
      case JsonMember => JsonIsAttached(w, line, span);
      case QuotedArgument => QuotedIsAttached(w, line, span);
      case OptionArgument => OptionIsAttached(w, line, span);
      case Assignment => AssignmentIsAttached(w, line, span);
    }
  }

  /** The line character by character: lead-in up to the span, value in it, the rest after. */
  ghost predicate Spells(w: Written, syntax: ValueSyntax, line: string, span: Span) {
    var k, lead, rest := |w.before|, LeadIn(w, syntax), Closing(w, syntax) + w.after;
    && span == Span(k + |lead|, k + |lead| + |w.value|)
    && |line| == span.end + |rest|
    && (forall i :: k <= i < span.start ==> line[i] == lead[i - k])
    && (forall i :: span.start <= i < span.end ==> line[i] == w.value[i - span.start])
    && (forall i :: span.end <= i < |line| ==> line[i] == rest[i - span.end])
  }

  lemma PrintSpells(w: Written, syntax: ValueSyntax)
    ensures var start := |w.before| + |LeadIn(w, syntax)|;
            var line := Print(w, syntax);
            Spells(w, syntax, line, Span(start, start + |w.value|)) && line[start..start + |w.value|] == w.value
  {
    hide LeadIn, Closing;
    var lead, rest := LeadIn(w, syntax), Closing(w, syntax) + w.after;
    assert Print(w, syntax) == w.before + lead + w.value + rest;
  }

  lemma JsonIsAttached(w: Written, line: string, span: Span)
    requires IsWritten(w, JsonMember) && Spells(w, JsonMember, line, span)
    ensures Attached(line, |w.before|, JsonMember, span)
  {
    var k := |w.before|;
    var c := k + |w.gap|;
    assert line[c] == ':' && line[span.start - 1] == '"' && line[span.end] == '"';
    assert forall i :: k <= i < c ==> line[i] == w.gap[i - k];
    assert forall i :: c + 1 <= i < span.start - 1 ==> line[i] == w.gap'[i - c - 1];
    assert SpaceBetween(line, k, c) && SpaceBetween(line, c + 1, span.start - 1);
  }

  lemma QuotedIsAttached(w: Written, line: string, span: Span)
    requires IsWritten(w, QuotedArgument) && Spells(w, QuotedArgument, line, span)
    ensures Attached(line, |w.before|, QuotedArgument, span)
  {
    assert line[span.end] == w.quote && line[span.start - 1] == w.quote;
  }

  lemma OptionIsAttached(w: Written, line: string, span: Span)
    requires IsWritten(w, OptionArgument) && Spells(w, OptionArgument, line, span)
    ensures Attached(line, |w.before|, OptionArgument, span)
  {
    var k := |w.before|;
    assert line[k] == w.sep;
    assert forall i :: k + 1 <= i < span.start ==> line[i] == w.gap'[i - k - 1];
    assert span.end < |line| ==> line[span.end] == w.after[0];
  }

  lemma AssignmentIsAttached(w: Written, line: string, span: Span)
    requires IsWritten(w, Assignment) && Spells(w, Assignment, line, span)
    ensures Attached(line, |w.before|, Assignment, span)
  {
    var k := |w.before|;
    assert line[k] == w.sep;
    assert forall i :: k + 1 <= i < span.start ==> line[i] == w.gap'[i - k - 1];
  }
}
