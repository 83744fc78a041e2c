/** Markdown-fence extraction: the handler tries
    `/```json\s*([\s\S]*?)\s*```/`, then `/```\s*([\s\S]*?)\s*```/`, and
    otherwise keeps the whole model text.

    Both regexes have the shape OPEN `\s*` `([\s\S]*?)` `\s*` "```". A match
    is described by a `Span`; `IsMatch` says which spans the regex admits and
    `Prefers` is the order in which a backtracking engine tries them: the
    leftmost opening first, then the longest leading `\s*`, then the shortest
    lazy group, then the longest trailing `\s*`. The regex returns the
    `Prefers`-least admitted span. `FindFence` is a direct scanner, proved to
    return exactly that span. */
module Fence {
  import opened Wrappers
  import opened Text

  /** The closing fence, also the bare opening fence. */
  const Ticks: string := "```"
  /** The `json`-tagged opening fence. */
  const JsonOpen: string := "```json"

  /** A candidate match: the opening marker starts at `open`, the captured
      group is `s[start..end]`, and the closing fence starts at `close`. */
  datatype Span = Span(open: nat, start: nat, end: nat, close: nat)

  /** The regex `open\s*([\s\S]*?)\s*```` can match `s` along `d`. */
  predicate IsMatch(s: string, open: string, d: Span) {
    && OccursAt(s, open, d.open)
    && d.open + |open| <= d.start <= d.end <= d.close
    && AllWs(s, d.open + |open|, d.start)
    && AllWs(s, d.end, d.close)
    && OccursAt(s, Ticks, d.close)
  }

  /** A backtracking engine tries `d` no later than `e`. */
  predicate Prefers(d: Span, e: Span) {
    d.open < e.open
    || (d.open == e.open && d.start > e.start)
    || (d.open == e.open && d.start == e.start && d.end < e.end)
    || (d.open == e.open && d.start == e.start && d.end == e.end && d.close >= e.close)
  }

  /** The captured group of a match. */
  function Capture(s: string, d: Span): string
    requires d.start <= d.end <= |s|
  {
    s[d.start..d.end]
  }

  /** The scanner: first opening marker, skip the whitespace after it, first
      closing fence from there, and give back the whitespace before it. */
  function FindFence(s: string, open: string): (r: Option<Span>)
    ensures r.Some? ==> IsMatch(s, open, r.value)
  {
    match IndexOf(s, open, 0)
    case None => None
    case Some(p) =>
      var a := SkipWs(s, p + |open|);
      match IndexOf(s, Ticks, a)
      case None => None
      case Some(m) => Some(Span(p, a, BackWs(s, a, m), m))
  }

  /** No fence character is whitespace. */
  lemma TickNotWs(s: string, i: int)
    requires OccursAt(s, Ticks, i)
    ensures !IsWs(s[i])
  {
    assert s[i] == s[i..i + 3][0] == '`';
  }

  /** Every match the regex admits is tried no earlier than the scanner's. */
  lemma FindFencePreferred(s: string, open: string, e: Span)
    requires IsMatch(s, open, e)
    ensures FindFence(s, open).Some?
    ensures Prefers(FindFence(s, open).value, e)
  {
    var p := IndexOf(s, open, 0).value;
    var a := SkipWs(s, p + |open|);
    // The closing fence of `e` lies past the whitespace run after `p`.
    TickNotWs(s, e.close);
    assert e.close >= a;
    var m := IndexOf(s, Ticks, a).value;
    var d := FindFence(s, open).value;
    TickNotWs(s, m);
    assert d == Span(p, a, BackWs(s, a, m), m);
  }

  /** The scanner finds nothing only when the regex matches nowhere. */
  lemma FindFenceComplete(s: string, open: string)
    ensures FindFence(s, open).None? <==> forall e :: !IsMatch(s, open, e)
  {
    if FindFence(s, open).None? {
      forall e ensures !IsMatch(s, open, e) {
        if IsMatch(s, open, e) {
          FindFencePreferred(s, open, e);
        }
      }
    }
  }

  /** `d` is the match `String.prototype.match` returns: admitted by the
      regex and tried before every other admitted span. */
  ghost predicate RegexResult(s: string, open: string, d: Span) {
    IsMatch(s, open, d) && forall e :: IsMatch(s, open, e) ==> Prefers(d, e)
  }

  /** The regex result is unique, and it is the scanner's. */
  lemma FindFenceIsRegexResult(s: string, open: string, d: Span)
    requires RegexResult(s, open, d)
    ensures FindFence(s, open) == Some(d)
  {
    FindFencePreferred(s, open, d);
    var f := FindFence(s, open).value;
    assert Prefers(f, d) && Prefers(d, f);
  }

  /** The group is lazy: no closing fence starts anywhere from the group's
      start up to the match's closing fence, so the match ends at the first
      fence after the opening one. */
  lemma CaptureLazy(s: string, open: string)
    requires FindFence(s, open).Some?
    ensures var d := FindFence(s, open).value;
      forall j :: d.start <= j < d.close ==> !OccursAt(s, Ticks, j)
  {
  }

  /** `text.match(jsonRegex) || text.match(bareRegex)`, then group 1, or the
      whole text when neither matches. */
  function FenceBody(text: string): (r: string)
    ensures || r == text
            || (exists d :: IsMatch(text, JsonOpen, d) && r == Capture(text, d))
            || (exists d :: IsMatch(text, Ticks, d) && r == Capture(text, d))
  {
    match FindFence(text, JsonOpen)
    case Some(d) => Capture(text, d)
    case None =>
      match FindFence(text, Ticks)
      case Some(d) => Capture(text, d)
      case None => text
  }

  /** The string handed to the decoder: the fence body, trimmed. */
  function JsonText(text: string): (r: string)
    ensures |r| <= |text|
    ensures |r| == 0 || (!IsWs(r[0]) && !IsWs(r[|r| - 1]))
  {
    Trim(FenceBody(text))
  }

  /** A `json`-tagged fence wins wherever it is, even after a bare fence. */
  lemma JsonFenceFirst(text: string, d: Span)
    requires RegexResult(text, JsonOpen, d)
    ensures FenceBody(text) == Capture(text, d)
  {
    FindFenceIsRegexResult(text, JsonOpen, d);
  }

  /** The bare fence is used only when no `json`-tagged fence matches. */
  lemma BareFenceSecond(text: string, d: Span)
    requires forall e :: !IsMatch(text, JsonOpen, e)
    requires RegexResult(text, Ticks, d)
    ensures FenceBody(text) == Capture(text, d)
  {
    FindFenceComplete(text, JsonOpen);
    FindFenceIsRegexResult(text, Ticks, d);
  }

  /** With no fence matching, the whole text is used. */
  lemma NoFenceWholeText(text: string)
    requires forall e :: !IsMatch(text, JsonOpen, e)
    requires forall e :: !IsMatch(text, Ticks, e)
    ensures FenceBody(text) == text
  {
    FindFenceComplete(text, JsonOpen);
    FindFenceComplete(text, Ticks);
  }

  /** Model output with a bare fence followed by a `json`-tagged fence. */
  const Example: string := "``` x ``` ```json {} ```"

  /** On `Example` the bare regex alone would capture `x`, from the earlier
      fence. */
  lemma ExampleBareCapture(t: string)
    requires t == Example
    ensures FindFence(t, Ticks) == Some(Span(0, 4, 5, 6))
    ensures Capture(t, Span(0, 4, 5, 6)) == "x"
  {
    assert t[..3] == Ticks;
    assert IndexOf(t, Ticks, 0) == Some(0);
    assert SkipWs(t, 3) == 4 by { assert IsWs(t[3]) && !IsWs(t[4]); }
    assert t[6..9] == Ticks;
    assert IndexOf(t, Ticks, 4) == Some(6) by {
      assert t[4] == 'x' && t[5] == ' ';
    }
    assert BackWs(t, 4, 6) == 5 by { assert IsWs(t[5]) && !IsWs(t[4]); }
  }

  /** On `Example` the handler uses the later `json` fence's body. */
  lemma ExampleJsonFenceWins(t: string)
    requires t == Example
    ensures FenceBody(t) == "{}"
  {
    ExampleJsonOpen(t);
    ExampleJsonClose(t);
    assert FindFence(t, JsonOpen) == Some(Span(10, 18, 20, 21));
  }

  /** After the `json` fence of `Example` the group runs from 18 to 20 and
      the closing fence is at 21. */
  lemma ExampleJsonClose(t: string)
    requires t == Example
    ensures SkipWs(t, 17) == 18
    ensures IndexOf(t, Ticks, 18) == Some(21)
    ensures BackWs(t, 18, 21) == 20
  {
    assert IsWs(t[17]) && !IsWs(t[18]);
    assert t[21..24] == Ticks;
    var group := t[18..21];
    assert group == "{} ";
    forall j | 18 <= j < 21 ensures !OccursAt(t, Ticks, j) {
      assert t[j] == group[j - 18];
      assert j + 3 <= |t| ==> t[j..j + 3][0] == t[j];
    }
    assert IsWs(t[20]) && !IsWs(t[19]);
  }

  /** The first `json`-tagged fence of `Example` is at position 10. */
  lemma ExampleJsonOpen(t: string)
    requires t == Example
    ensures IndexOf(t, JsonOpen, 0) == Some(10)
  {
    assert t[10..17] == JsonOpen;
    var gap := t[3..13];
    assert gap == " x ``` ```";
    assert 'j' !in gap;
    forall j | 0 <= j < 10 ensures !OccursAt(t, JsonOpen, j) {
      assert t[j + 3] == gap[j];
      assert j + 7 <= |t| ==> t[j..j + 7][3] == t[j + 3];
    }
  }
}
