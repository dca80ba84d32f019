/**
 * lib/ai.ts: the text handling around the language-model calls.  Every reply is cut down
 * to its JSON text before `JSON.parse` (an object for the essay analysis, the comparison,
 * the writing fingerprint and the grade prediction, an array for the suggestions), and two
 * prompts embed lists the code assembles: the numbered weaknesses and the essay excerpts.
 */
module Ai {
  import opened Wrappers
  import opened Text
  import JsonSpan

  /**
   * The text `analyzeEssay`, `compareEssays`, `extractWritingFingerprint` and `predictGrade`
   * parse: the object of a fenced block if there is one, else the span from the first '{'
   * to the last '}', else the whole reply.
   */
  function ObjectJsonText(reply: string): (t: string)
    ensures JsonSpan.FindSpan(reply, JsonSpan.ObjectShape).None? ==> t == reply
    ensures JsonSpan.FindSpan(reply, JsonSpan.ObjectShape).Some? ==> |t| >= 2 && t[0] == '{' && t[|t| - 1] == '}'
  {
    JsonSpan.JsonText(reply, JsonSpan.ObjectShape)
  }

  /** The text `generateStrategicSuggestions` parses: the same rule with '[' and ']'. */
  function ArrayJsonText(reply: string): (t: string)
    ensures JsonSpan.FindSpan(reply, JsonSpan.ArrayShape).None? ==> t == reply
    ensures JsonSpan.FindSpan(reply, JsonSpan.ArrayShape).Some? ==> |t| >= 2 && t[0] == '[' && t[|t| - 1] == ']'
  {
    JsonSpan.JsonText(reply, JsonSpan.ArrayShape)
  }

  /** No fenced block anywhere in the reply. */
  predicate NoFence(reply: string, sh: JsonSpan.Shape) {
    forall k :: 0 <= k < |reply| ==> JsonSpan.FencedAt(reply, k, sh).None?
  }

  /**
   * Without a fence, and with a '}' somewhere after the first '{', the parsed text is the
   * slice of the reply from that first '{' to the last '}'.
   */
  lemma ObjectFallbackSpan(reply: string)
    requires NoFence(reply, JsonSpan.ObjectShape)
    requires '{' in reply && exists q :: IndexOf(reply, '{') < q < |reply| && reply[q] == '}'
    ensures var t := ObjectJsonText(reply); var p := IndexOf(reply, '{');
      && p + |t| <= |reply| && t == reply[p..p + |t|]
      && t[|t| - 1] == '}'
      && forall q :: p + |t| <= q < |reply| ==> reply[q] != '}'
  {
    var sh := JsonSpan.ObjectShape;
    assert sh.open == '{' && sh.close == '}' && sh.quantifier == JsonSpan.Greedy;
    JsonSpan.BareWhenNoFence(reply, sh);
    var sp := JsonSpan.BareMatch(reply, sh).value;
    assert JsonSpan.FindSpan(reply, sh) == Some(sp);
    assert ObjectJsonText(reply) == reply[sp.start..sp.end];
  }

  /** Without a fence and without a '{' followed by a '}', the whole reply is parsed. */
  lemma ObjectFallbackWhole(reply: string)
    requires NoFence(reply, JsonSpan.ObjectShape)
    requires '{' !in reply || forall q :: IndexOf(reply, '{') < q < |reply| ==> reply[q] != '}'
    ensures ObjectJsonText(reply) == reply
  {
    JsonSpan.BareWhenNoFence(reply, JsonSpan.ObjectShape);
  }

  /** `${i + 1}. ${w}` */
  function NumberedLine(i: nat, w: string): (line: string)
    ensures StartsWith(line, NatToString(i + 1) + ". ") && EndsWith(line, w)
  {
    var line := NatToString(i + 1) + ". " + w;
    assert line[..|NatToString(i + 1) + ". "|] == NatToString(i + 1) + ". ";
    assert line[|line| - |w|..] == w;
    line
  }

  /** The numbered lines, one per weakness, in input order. */
  function NumberedLines(weaknesses: seq<string>): (lines: seq<string>)
    ensures |lines| == |weaknesses|
    ensures forall i :: 0 <= i < |lines| ==> lines[i] == NumberedLine(i, weaknesses[i])
  {
    seq(|weaknesses|, i requires 0 <= i < |weaknesses| => NumberedLine(i, weaknesses[i]))
  }

  /** `weaknesses.map((w, i) => `${i + 1}. ${w}`).join('\n')` */
  function NumberedWeaknesses(weaknesses: seq<string>): string {
    Join(NumberedLines(weaknesses), "\n")
  }

  /**
   * Read line by line, the list gives back each weakness under its number, from 1 and in
   * order, as long as no weakness spans several lines.
   */
  lemma NumberedWeaknessLines(weaknesses: seq<string>)
    requires weaknesses != []
    requires forall i :: 0 <= i < |weaknesses| ==> '\n' !in weaknesses[i]
    ensures var lines := Split(NumberedWeaknesses(weaknesses), '\n');
      && |lines| == |weaknesses|
      && forall i :: 0 <= i < |lines| ==> lines[i] == NatToString(i + 1) + ". " + weaknesses[i]
  {
    var lines := NumberedLines(weaknesses);
    forall k | 0 <= k < |lines|
      ensures '\n' !in lines[k]
    {
      NumberedLineNoBreak(NatToString(k + 1), weaknesses[k]);
    }
    SplitJoin(lines, '\n');
  }

  /** A number, ". " and a text without line feeds make a line without line feeds. */
  lemma NumberedLineNoBreak(d: string, w: string)
    requires IsDigits(d) && '\n' !in w
    ensures '\n' !in d + ". " + w
  {
    var line := d + ". " + w;
    assert forall j :: 0 <= j < |line| ==>
      line[j] == (if j < |d| then d[j] else if j < |d| + 2 then ". "[j - |d|] else w[j - |d| - 2]);
  }

  /** `e.content.substring(0, 2000)`: at most the first 2000 characters. */
  function Excerpt(content: string): (r: string)
    ensures |r| <= 2000 && |r| <= |content| && r == content[..|r|]
    ensures |content| <= 2000 ==> r == content
    ensures |content| > 2000 ==> |r| == 2000
  {
    if |content| <= 2000 then content else content[..2000]
  }

  /** `Essay ${i + 1}:\n${excerpt}` */
  function EssayBlock(i: nat, content: string): (block: string)
    ensures StartsWith(block, "Essay " + NatToString(i + 1) + ":\n")
    ensures EndsWith(block, Excerpt(content))
  {
    var head := "Essay " + NatToString(i + 1) + ":\n";
    var block := head + Excerpt(content);
    assert block[..|head|] == head;
    assert block[|block| - |Excerpt(content)|..] == Excerpt(content);
    block
  }

  function EssayBlocks(contents: seq<string>): (blocks: seq<string>)
    ensures |blocks| == |contents|
    ensures forall i :: 0 <= i < |blocks| ==> blocks[i] == EssayBlock(i, contents[i])
  {
    seq(|contents|, i requires 0 <= i < |contents| => EssayBlock(i, contents[i]))
  }

  const EssaySeparator := "\n\n---\n\n"

  /** `essays.map(...).join('\n\n---\n\n')`, the essays part of the fingerprint prompt. */
  function FingerprintEssays(contents: seq<string>): string {
    Join(EssayBlocks(contents), EssaySeparator)
  }

  /**
   * Where part `i` starts in `Join(parts, sep)`: after every earlier part and a separator
   * for each.
   */
  function JoinOffset(parts: seq<string>, sep: string, i: nat): nat
    requires i <= |parts|
    decreases i
  {
    if i == 0 then 0 else |parts[0]| + |sep| + JoinOffset(parts[1..], sep, i - 1)
  }

  lemma OccursAfter(a: string, t: string, sub: string, k: int, whole: string, at: int)
    requires OccursAt(t, sub, k) && whole == a + t && at == |a| + k
    ensures OccursAt(whole, sub, at)
  {
    assert whole[at..at + |sub|] == t[k..k + |sub|];
  }

  /** Each part of a join sits at its offset, and a separator follows every part but the last. */
  lemma {:induction false} JoinPartAt(parts: seq<string>, sep: string, i: nat)
    requires i < |parts|
    ensures OccursAt(Join(parts, sep), parts[i], JoinOffset(parts, sep, i))
    ensures i + 1 < |parts| ==> OccursAt(Join(parts, sep), sep, JoinOffset(parts, sep, i) + |parts[i]|)
    decreases i
  {
    if |parts| > 1 && i > 0 {
      JoinPartAt(parts[1..], sep, i - 1);
      assert parts[1..][i - 1] == parts[i];
      JoinPartShift(parts, sep, i);
    } else if |parts| > 1 {
      JoinPartHead(parts, sep);
    } else {
      assert Join(parts, sep) == parts[0];
    }
  }

  /** What holds of a part in the join of the later parts holds, shifted, in the whole join. */
  lemma JoinPartShift(parts: seq<string>, sep: string, i: nat)
    requires 0 < i < |parts|
    requires OccursAt(Join(parts[1..], sep), parts[i], JoinOffset(parts[1..], sep, i - 1))
    requires i + 1 < |parts| ==>
      OccursAt(Join(parts[1..], sep), sep, JoinOffset(parts[1..], sep, i - 1) + |parts[i]|)
    ensures OccursAt(Join(parts, sep), parts[i], JoinOffset(parts, sep, i))
    ensures i + 1 < |parts| ==> OccursAt(Join(parts, sep), sep, JoinOffset(parts, sep, i) + |parts[i]|)
  {
    var rest := Join(parts[1..], sep);
    var k := JoinOffset(parts[1..], sep, i - 1);
    var head := parts[0] + sep;
    var whole := Join(parts, sep);
    var at := JoinOffset(parts, sep, i);
    assert whole == head + rest;
    assert at == |head| + k;
    OccursAfter(head, rest, parts[i], k, whole, at);
    if i + 1 < |parts| {
      OccursAfter(head, rest, sep, k + |parts[i]|, whole, at + |parts[i]|);
    }
  }

  /** The first part opens the join and, when more follow, the separator comes next. */
  lemma JoinPartHead(parts: seq<string>, sep: string)
    requires |parts| > 1
    ensures OccursAt(Join(parts, sep), parts[0], 0)
    ensures OccursAt(Join(parts, sep), sep, |parts[0]|)
  {
    var s := Join(parts, sep);
    assert s == parts[0] + sep + Join(parts[1..], sep);
    assert s[..|parts[0]|] == parts[0];
    assert s[|parts[0]|..|parts[0]| + |sep|] == sep;
  }

  /**
   * In the fingerprint prompt every essay appears as its own labelled block, in input
   * order, followed by the separator unless it is the last one; each block carries at
   * most the first 2000 characters of its essay.
   */
  lemma FingerprintBlockAt(contents: seq<string>, i: nat)
    requires i < |contents|
    ensures EssayBlocks(contents)[i] == EssayBlock(i, contents[i])
    ensures OccursAt(FingerprintEssays(contents), EssayBlocks(contents)[i], JoinOffset(EssayBlocks(contents), EssaySeparator, i))
    ensures i + 1 < |contents| ==>
      OccursAt(FingerprintEssays(contents), EssaySeparator,
               JoinOffset(EssayBlocks(contents), EssaySeparator, i) + |EssayBlocks(contents)[i]|)
  {
    JoinPartAt(EssayBlocks(contents), EssaySeparator, i);
  }

  /** Blocks of later essays start further on. */
  lemma {:induction false} JoinOffsetIncreasing(parts: seq<string>, sep: string, i: nat, j: nat)
    requires i < j <= |parts|
    ensures JoinOffset(parts, sep, i) + |parts[i]| + |sep| <= JoinOffset(parts, sep, j)
    decreases i
  {
    if i > 0 {
      JoinOffsetIncreasing(parts[1..], sep, i - 1, j - 1);
    }
  }
}
