/**
 * Locating the JSON text inside a language-model reply.  The application looks for a
 * bracketed group with two regular expressions, tried in order:
 *
 *   1. a fenced block: "```", an optional "json", whitespace, then the group, then
 *      whitespace and a closing "```";
 *   2. the bare group anywhere in the reply.
 *
 * The group opens with `open` and closes with `close` (`{`/`}` for objects, `[`/`]` for
 * arrays).  With a greedy body (`[\s\S]*`) the group ends at the last admissible closing
 * character; with a lazy body (`[\s\S]*?`) at the first one.  As in every JavaScript
 * regular-expression match, the leftmost starting position wins.
 */
module JsonSpan {
  import opened Wrappers
  import opened Text

  /** Whether the group's body is `[\s\S]*` or `[\s\S]*?`. */
  datatype Quantifier = Greedy | Lazy

  /** The bracketed group a pattern looks for. */
  datatype Shape = Shape(open: char, close: char, quantifier: Quantifier)

  /** `\{[\s\S]*\}`, used for every object-returning reply in lib/ai.ts. */
  const ObjectShape := Shape('{', '}', Greedy)

  /** `\[[\s\S]*\]`, used for the suggestion list in lib/ai.ts. */
  const ArrayShape := Shape('[', ']', Greedy)

  /** `\[[\s\S]*?\]`, used for the comment list in lib/document-processor.ts. */
  const LazyArrayShape := Shape('[', ']', Lazy)

  /** A half-open slice `[start, end)` of the reply. */
  datatype Span = Span(start: nat, end: nat)

  /** A slice at least two characters long that opens with `open` and closes with `close`. */
  predicate Bracketed(s: string, sp: Span, sh: Shape) {
    sp.start + 2 <= sp.end <= |s| && s[sp.start] == sh.open && s[sp.end - 1] == sh.close
  }

  /** The first position at or after `from` that is not `\s`. */
  function SkipSpaces(s: string, from: nat): (j: nat)
    requires from <= |s|
    ensures from <= j <= |s|
    ensures forall k :: from <= k < j ==> IsSpace(s[k])
    ensures j < |s| ==> !IsSpace(s[j])
    decreases |s| - from
  {
    if from < |s| && IsSpace(s[from]) then SkipSpaces(s, from + 1) else from
  }

  /** "```" at position `i`. */
  predicate TicksAt(s: string, i: nat) {
    i + 3 <= |s| && s[i] == '`' && s[i + 1] == '`' && s[i + 2] == '`'
  }

  /** "json" at position `i`. */
  predicate JsonTagAt(s: string, i: nat) {
    i + 4 <= |s| && s[i] == 'j' && s[i + 1] == 's' && s[i + 2] == 'o' && s[i + 3] == 'n'
  }

  /** `\s*```` matches at position `from`. */
  predicate FenceFollows(s: string, from: nat)
    requires from <= |s|
    decreases |s| - from
  {
    if from < |s| && IsSpace(s[from]) then FenceFollows(s, from + 1) else TicksAt(s, from)
  }

  /** Position `q` may end the group: it holds the closing character and, inside a fence, is followed by `\s*````. */
  predicate IsClose(s: string, q: nat, close: char, fenced: bool) {
    q < |s| && s[q] == close && (!fenced || FenceFollows(s, q + 1))
  }

  /** For every position of the reply, whether it may end the group. */
  function Closes(s: string, close: char, fenced: bool): (r: seq<bool>)
    ensures |r| == |s| && forall q :: 0 <= q < |s| ==> r[q] == IsClose(s, q, close, fenced)
  {
    seq(|s|, q requires 0 <= q < |s| => IsClose(s, q, close, fenced))
  }

  /** The first position in `[from, |xs|)` that holds `true`. */
  function FirstTrue(xs: seq<bool>, from: nat): (r: Option<nat>)
    requires from <= |xs|
    ensures r.Some? ==> from <= r.value < |xs| && xs[r.value]
    ensures r.Some? ==> forall q :: from <= q < r.value ==> !xs[q]
    ensures r.None? ==> forall q :: from <= q < |xs| ==> !xs[q]
    decreases |xs| - from
  {
    if from == |xs| then None else if xs[from] then Some(from) else FirstTrue(xs, from + 1)
  }

  /** The last position in `[from, hi)` that holds `true`. */
  function LastTrue(xs: seq<bool>, from: nat, hi: nat): (r: Option<nat>)
    requires from <= hi <= |xs|
    ensures r.Some? ==> from <= r.value < hi && xs[r.value]
    ensures r.Some? ==> forall q :: r.value < q < hi ==> !xs[q]
    ensures r.None? ==> forall q :: from <= q < hi ==> !xs[q]
    decreases hi - from
  {
    if hi == from then None else if xs[hi - 1] then Some(hi - 1) else LastTrue(xs, from, hi - 1)
  }

  /** The first admissible end of the group at or after `from`. */
  function FirstClose(s: string, from: nat, close: char, fenced: bool): (r: Option<nat>)
    requires from <= |s|
    ensures r.Some? ==> from <= r.value < |s| && IsClose(s, r.value, close, fenced)
    ensures r.Some? ==> forall q :: from <= q < r.value ==> !IsClose(s, q, close, fenced)
    ensures r.None? ==> forall q :: from <= q < |s| ==> !IsClose(s, q, close, fenced)
  {
    FirstTrue(Closes(s, close, fenced), from)
  }

  /** The last admissible end of the group in `[from, hi)`. */
  function LastClose(s: string, from: nat, hi: nat, close: char, fenced: bool): (r: Option<nat>)
    requires from <= hi <= |s|
    ensures r.Some? ==> from <= r.value < hi && IsClose(s, r.value, close, fenced)
    ensures r.Some? ==> forall q :: r.value < q < hi ==> !IsClose(s, q, close, fenced)
    ensures r.None? ==> forall q :: from <= q < hi ==> !IsClose(s, q, close, fenced)
  {
    LastTrue(Closes(s, close, fenced), from, hi)
  }

  /** Where the group ends when its body may start at `from`: the last or the first admissible end. */
  function GroupEnd(s: string, from: nat, sh: Shape, fenced: bool): (r: Option<nat>)
    requires from <= |s|
    ensures r.Some? ==> from <= r.value < |s| && IsClose(s, r.value, sh.close, fenced)
    ensures r.None? <==> forall q :: from <= q < |s| ==> !IsClose(s, q, sh.close, fenced)
    ensures r.Some? && sh.quantifier == Greedy ==>
      forall q :: r.value < q < |s| ==> !IsClose(s, q, sh.close, fenced)
    ensures r.Some? && sh.quantifier == Lazy ==>
      forall q :: from <= q < r.value ==> !IsClose(s, q, sh.close, fenced)
  {
    if sh.quantifier == Greedy then LastClose(s, from, |s|, sh.close, fenced)
    else FirstClose(s, from, sh.close, fenced)
  }

  /** Where the group must open for a fence starting at `i`: after "```", an optional "json" and whitespace. */
  function FenceOpening(s: string, i: nat): (r: Option<nat>)
    ensures r.Some? ==> i + 3 <= r.value < |s| && TicksAt(s, i)
  {
    if !TicksAt(s, i) then None
    else
      var p := if JsonTagAt(s, i + 3) then i + 7 else i + 3;
      var q := SkipSpaces(s, p);
      if q < |s| then Some(q) else None
  }

  /** The fenced pattern's match starting at position `i`, if any. */
  function FencedAt(s: string, i: nat, sh: Shape): (r: Option<Span>)
    ensures r.Some? ==> Bracketed(s, r.value, sh)
  {
    match FenceOpening(s, i)
    case None => None
    case Some(p) =>
      if s[p] != sh.open then None
      else
        match GroupEnd(s, p + 1, sh, true)
        case None => None
        case Some(q) => Some(Span(p, q + 1))
  }

  /** A fenced group ends at a closing character followed by whitespace and "```". */
  lemma FencedAtClose(s: string, i: nat, sh: Shape)
    ensures FencedAt(s, i, sh).Some? ==> IsClose(s, FencedAt(s, i, sh).value.end - 1, sh.close, true)
  {
  }

  /** A fenced match: where the pattern starts and the span of its group. */
  datatype FenceMatch = FenceMatch(at: nat, span: Span)

  /** The fenced pattern tried at every position of the reply. */
  function Fences(s: string, sh: Shape): (r: seq<Option<Span>>)
    ensures |r| == |s| && forall k :: 0 <= k < |s| ==> r[k] == FencedAt(s, k, sh)
  {
    seq(|s|, k requires 0 <= k < |s| => FencedAt(s, k, sh))
  }

  /** The leftmost position at or after `i` holding a match. */
  function Leftmost(xs: seq<Option<Span>>, i: nat): (r: Option<nat>)
    requires i <= |xs|
    ensures r.Some? ==> i <= r.value < |xs| && xs[r.value].Some?
    ensures r.Some? ==> forall j :: i <= j < r.value ==> xs[j].None?
    ensures r.None? ==> forall k :: i <= k < |xs| ==> xs[k].None?
    decreases |xs| - i
  {
    if i == |xs| then None else if xs[i].Some? then Some(i) else Leftmost(xs, i + 1)
  }

  /** The leftmost position at or after `i` where the fenced pattern matches, with its group. */
  function FirstFence(s: string, i: nat, sh: Shape): (r: Option<FenceMatch>)
    requires i <= |s|
    ensures r.Some? ==> i <= r.value.at < |s| && FencedAt(s, r.value.at, sh) == Some(r.value.span)
    ensures r.Some? ==> Bracketed(s, r.value.span, sh)
    ensures r.Some? ==> forall j :: i <= j < r.value.at ==> FencedAt(s, j, sh).None?
    ensures r.None? ==> forall k :: i <= k < |s| ==> FencedAt(s, k, sh).None?
  {
    var fences := Fences(s, sh);
    match Leftmost(fences, i)
    case None => None
    case Some(k) =>
      assert fences[k] == FencedAt(s, k, sh);
      Some(FenceMatch(k, FencedAt(s, k, sh).value))
  }

  /**
   * The bare pattern's match: it starts at the first opening character and exists exactly
   * when a closing character follows it; a greedy group then ends at the last closing
   * character of the reply, a lazy one at the first closing character after the opening.
   */
  function BareMatch(s: string, sh: Shape): (r: Option<Span>)
    ensures r.Some? ==> Bracketed(s, r.value, sh)
    ensures r.Some? <==> sh.open in s && exists q :: IndexOf(s, sh.open) < q < |s| && s[q] == sh.close
    ensures r.Some? ==> r.value.start == IndexOf(s, sh.open)
    ensures r.Some? && sh.quantifier == Greedy ==> forall q :: r.value.end <= q < |s| ==> s[q] != sh.close
    ensures r.Some? && sh.quantifier == Lazy ==> forall q :: r.value.start < q < r.value.end - 1 ==> s[q] != sh.close
  {
    if sh.open !in s then None
    else
      var p := IndexOf(s, sh.open);
      BareWitness(s, p, sh.close);
      BareClose(s, sh.close);
      match GroupEnd(s, p + 1, sh, false)
      case None => None
      case Some(q) => Some(Span(p, q + 1))
  }

  lemma BareClose(s: string, close: char)
    ensures forall q :: 0 <= q < |s| ==> (IsClose(s, q, close, false) <==> s[q] == close)
  {
  }

  lemma BareWitness(s: string, p: nat, close: char)
    requires p < |s|
    ensures (exists q :: p < q < |s| && s[q] == close) <==> exists q :: p + 1 <= q < |s| && IsClose(s, q, close, false)
  {
    if exists q :: p < q < |s| && s[q] == close {
      var q :| p < q < |s| && s[q] == close;
      assert IsClose(s, q, close, false);
    }
  }

  /** `reply.match(fenced) || reply.match(bare)`: the span of capture group 1, if either matches. */
  function FindSpan(s: string, sh: Shape): (r: Option<Span>)
    ensures r.Some? ==> Bracketed(s, r.value, sh)
  {
    match FirstFence(s, 0, sh)
    case Some(m) => Some(m.span)
    case None => BareMatch(s, sh)
  }

  /**
   * `jsonMatch ? jsonMatch[1] : text`: the text handed to `JSON.parse`, which is the matched
   * slice of the reply (opening with `open`, closing with `close`), or the whole reply when
   * neither pattern matches.
   */
  function JsonText(s: string, sh: Shape): (t: string)
    ensures FindSpan(s, sh).None? ==> t == s
    ensures FindSpan(s, sh).Some? ==>
      && t == s[FindSpan(s, sh).value.start..FindSpan(s, sh).value.end]
      && |t| >= 2 && t[0] == sh.open && t[|t| - 1] == sh.close
  {
    match FindSpan(s, sh)
    case Some(sp) =>
      assert Bracketed(s, sp, sh);
      var t := s[sp.start..sp.end];
      assert t[0] == s[sp.start] && t[|t| - 1] == s[sp.end - 1];
      t
    case None => s
  }

  /** A fenced block wins: whenever some position starts a fenced match, the leftmost one is taken. */
  lemma FencePreferred(s: string, sh: Shape, k: nat)
    requires k < |s| && FencedAt(s, k, sh).Some?
    ensures FirstFence(s, 0, sh).Some? && FirstFence(s, 0, sh).value.at <= k
    ensures FindSpan(s, sh) == FencedAt(s, FirstFence(s, 0, sh).value.at, sh)
  {
  }

  /** Only when no position starts a fenced block does the bare pattern decide. */
  lemma BareWhenNoFence(s: string, sh: Shape)
    requires forall k :: 0 <= k < |s| ==> FencedAt(s, k, sh).None?
    ensures FindSpan(s, sh) == BareMatch(s, sh)
  {
  }
}
