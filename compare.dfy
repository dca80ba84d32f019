/**
 * app/compare/CompareClient.tsx: choosing two drafts, asking the server to compare them,
 * and showing each score difference with an arrow, a colour and a signed percentage.
 */
module Compare {
  import opened Wrappers
  import opened Text
  import opened Fetch

  /** An essay offered in the two selectors. */
  datatype EssayOption = EssayOption(id: string, title: string, uploadedAt: string)

  /** The server's comparison: one difference per rubric dimension, and what improved. */
  datatype Comparison = Comparison(clarityDelta: real, coherenceDelta: real, structureDelta: real,
                                   argumentDelta: real, analysisDelta: real,
                                   improvements: seq<string>)

  const BothRequired := "Please select both essays to compare"
  const DifferentRequired := "Please select different essays"
  const CompareFailed := "Failed to compare essays"
  const CompareCaught := "Error comparing essays. Please try again."

  /**
   * The message `handleCompare` stops with before any request: a missing selection is
   * reported first, then a pair of equal ids.
   */
  function CompareError(beforeId: string, afterId: string): (e: Option<string>)
    ensures e == Some(BothRequired) <==> beforeId == "" || afterId == ""
    ensures e == Some(DifferentRequired) <==> beforeId != "" && afterId != "" && beforeId == afterId
    ensures e.None? <==> beforeId != "" && afterId != "" && beforeId != afterId
  {
    if beforeId == "" || afterId == "" then Some(BothRequired)
    else if beforeId == afterId then Some(DifferentRequired)
    else None
  }

  /** `disabled={loading || !beforeId || !afterId}` on the compare button. */
  function CompareDisabled(loading: bool, beforeId: string, afterId: string): (disabled: bool)
    ensures !disabled <==> !loading && beforeId != "" && afterId != ""
  {
    loading || beforeId == "" || afterId == ""
  }

  /**
   * The button and the validation agree: a click on an enabled button can only be refused
   * because the same essay was chosen twice.
   */
  lemma EnabledButtonPassesFirstCheck(beforeId: string, afterId: string)
    requires !CompareDisabled(false, beforeId, afterId)
    ensures CompareError(beforeId, afterId) != Some(BothRequired)
    ensures CompareError(beforeId, afterId).None? <==> beforeId != afterId
  {
  }

  /** The icons of `lucide-react` the page uses. */
  datatype IconName = TrendingUp | TrendingDown | Minus

  /** An icon element with its CSS classes. */
  datatype Icon = Icon(name: IconName, className: string)

  /** `getDeltaIcon`: up and green above +0.05, down and red below -0.05, a dash otherwise. */
  function DeltaIcon(delta: real): (icon: Icon)
    ensures icon.name == TrendingUp <==> delta > 0.05
    ensures icon.name == TrendingDown <==> delta < -0.05
    ensures icon.name == Minus <==> -0.05 <= delta <= 0.05
    ensures StartsWith(icon.className, "h-4 w-4 ")
  {
    if delta > 0.05 then Icon(TrendingUp, "h-4 w-4 text-green-600")
    else if delta < -0.05 then Icon(TrendingDown, "h-4 w-4 text-red-600")
    else Icon(Minus, "h-4 w-4 text-gray-600")
  }

  /** `getDeltaColor`: the text colour of a difference, by the same thresholds. */
  function DeltaColor(delta: real): (color: string)
    ensures color == "text-green-600" <==> delta > 0.05
    ensures color == "text-red-600" <==> delta < -0.05
    ensures color == "text-gray-600" <==> -0.05 <= delta <= 0.05
  {
    if delta > 0.05 then "text-green-600"
    else if delta < -0.05 then "text-red-600"
    else "text-gray-600"
  }

  /** Icon and figure always share a colour. */
  lemma IconMatchesColor(delta: real)
    ensures DeltaIcon(delta).className == "h-4 w-4 " + DeltaColor(delta)
  {
    if delta > 0.05 {
      assert "h-4 w-4 " + "text-green-600" == "h-4 w-4 text-green-600";
    } else if delta < -0.05 {
      assert "h-4 w-4 " + "text-red-600" == "h-4 w-4 text-red-600";
    } else {
      assert "h-4 w-4 " + "text-gray-600" == "h-4 w-4 text-gray-600";
    }
  }

  /** The thresholds themselves count as no change. */
  lemma ThresholdsAreNeutral()
    ensures DeltaIcon(0.05).name == Minus && DeltaIcon(-0.05).name == Minus
    ensures DeltaColor(0.05) == "text-gray-600" && DeltaColor(-0.05) == "text-gray-600"
  {
  }

  /** Raising a difference never moves its colour band down (red, grey, green in that order). */
  lemma DeltaColorMonotonic(a: real, b: real)
    requires a <= b
    ensures DeltaColor(a) == "text-green-600" ==> DeltaColor(b) == "text-green-600"
    ensures DeltaColor(b) == "text-red-600" ==> DeltaColor(a) == "text-red-600"
  {
  }

  /**
   * `formatDelta`: `+` exactly for a positive difference, then `Math.round(delta * 100)`
   * (with its own '-' when that is negative) and a '%'.
   */
  function FormatDelta(delta: real): (r: string)
    ensures |r| >= 2 && r[|r| - 1] == '%'
    ensures r[0] == '+' <==> delta > 0.0
    ensures r[0] == '-' <==> Round(delta * 100.0) < 0
    ensures delta > 0.0 ==> r == "+" + NatToString(Round(delta * 100.0)) + "%"
    ensures delta <= 0.0 ==> r == IntToString(Round(delta * 100.0)) + "%"
  {
    var sign := if delta > 0.0 then "+" else "";
    var s := sign + IntToString(Round(delta * 100.0)) + "%";
    assert delta > 0.0 ==> s == "+" + NatToString(Round(delta * 100.0)) + "%";
    s
  }

  /** Small differences read as "0%" and are signed only when positive. */
  lemma FormatDeltaExamples()
    ensures FormatDelta(0.123) == "+12%"
    ensures FormatDelta(0.0) == "0%"
    ensures FormatDelta(-0.004) == "0%"
    ensures FormatDelta(-0.25) == "-25%"
  {
    assert Round(12.3) == 12;
    assert NatToString(12) == "12";
    assert Round(-25.0) == -25;
    assert NatToString(25) == "25";
  }

  /** The five rows of the score-change card, in display order. */
  function Metrics(c: Comparison): (rows: seq<(string, real)>)
    ensures |rows| == 5
    ensures rows[0] == ("Clarity", c.clarityDelta) && rows[1] == ("Coherence", c.coherenceDelta)
    ensures rows[2] == ("Structure", c.structureDelta)
    ensures rows[3] == ("Argument Strength", c.argumentDelta)
    ensures rows[4] == ("Analysis Depth", c.analysisDelta)
  {
    [("Clarity", c.clarityDelta), ("Coherence", c.coherenceDelta),
     ("Structure", c.structureDelta), ("Argument Strength", c.argumentDelta),
     ("Analysis Depth", c.analysisDelta)]
  }

  class CompareForm {
    var essays: seq<EssayOption>
    var beforeId: string
    var afterId: string
    var comparison: Option<Comparison>
    var loading: bool
    var error: string

    /** The initial `useState` values. */
    constructor ()
      ensures essays == [] && beforeId == "" && afterId == "" && comparison == None
      ensures !loading && error == ""
    {
      essays, beforeId, afterId, comparison := [], "", "", None;
      loading, error := false, "";
    }

    /**
     * `fetchEssays` after its `await`: a successful reply fills the selectors; a failure
     * is only logged, so nothing changes.
     */
    method CompleteFetchEssays(reply: Reply<seq<EssayOption>>)
      modifies this
      ensures essays == if reply.Ok? then reply.data else old(essays)
      ensures beforeId == old(beforeId) && afterId == old(afterId) && comparison == old(comparison)
      ensures loading == old(loading) && error == old(error)
    {
      if reply.Ok? {
        essays := reply.data;
      }
    }

    /** The `onValueChange` of the first selector. */
    method SelectBefore(id: string)
      modifies this
      ensures beforeId == id
      ensures essays == old(essays) && afterId == old(afterId) && comparison == old(comparison)
      ensures loading == old(loading) && error == old(error)
    {
      beforeId := id;
    }

    /** The `onValueChange` of the second selector. */
    method SelectAfter(id: string)
      modifies this
      ensures afterId == id
      ensures essays == old(essays) && beforeId == old(beforeId) && comparison == old(comparison)
      ensures loading == old(loading) && error == old(error)
    {
      afterId := id;
    }

    /**
     * `handleCompare` up to the `await`: a refused selection sets its message and sends
     * nothing; otherwise loading starts, the error and the previous comparison are cleared
     * and the request names the two essays.
     */
    method BeginCompare() returns (request: Option<(string, string)>)
      modifies this
      ensures request.None? <==> CompareError(old(beforeId), old(afterId)).Some?
      ensures request.None? ==>
        && error == CompareError(old(beforeId), old(afterId)).value
        && loading == old(loading) && comparison == old(comparison)
      ensures request.Some? ==>
        && request.value == (beforeId, afterId)
        && loading && error == "" && comparison == None
      ensures essays == old(essays) && beforeId == old(beforeId) && afterId == old(afterId)
    {
      if beforeId == "" || afterId == "" {
        error := BothRequired;
        return None;
      }
      if beforeId == afterId {
        error := DifferentRequired;
        return None;
      }
      loading := true;
      error := "";
      comparison := None;
      return Some((beforeId, afterId));
    }

    /**
     * `handleCompare` after the `await`: a successful reply is shown, any other sets the
     * error; whatever the reply, loading ends.
     */
    method CompleteCompare(reply: Reply<Comparison>)
      modifies this
      ensures !loading
      ensures comparison == if reply.Ok? then Some(reply.data) else old(comparison)
      ensures error == ReplyError(reply, CompareFailed, CompareCaught).GetOr(old(error))
      ensures essays == old(essays) && beforeId == old(beforeId) && afterId == old(afterId)
    {
      match reply {
        case Ok(data) =>
          comparison := Some(data);
        case NotOk(field) =>
          error := ErrorOr(field, CompareFailed);
        case _ =>
          error := CompareCaught;
      }
      loading := false;
    }

    /**
     * The whole of `handleCompare` when nothing else runs during the request: a refused
     * selection never shows a comparison it did not have, and an accepted one ends with
     * loading off and either the new comparison or an error, never both.
     */
    method HandleCompare(reply: Reply<Comparison>)
      modifies this
      ensures CompareError(old(beforeId), old(afterId)).Some? ==>
        error == CompareError(old(beforeId), old(afterId)).value
        && comparison == old(comparison) && loading == old(loading)
      ensures CompareError(old(beforeId), old(afterId)).None? ==>
        && !loading
        && (comparison.Some? <==> reply.Ok?)
        && (error == "" <==> reply.Ok?)
        && (reply.Ok? ==> comparison == Some(reply.data))
        && (!reply.Ok? ==> error == ReplyError(reply, CompareFailed, CompareCaught).value)
      ensures essays == old(essays) && beforeId == old(beforeId) && afterId == old(afterId)
    {
      var request := BeginCompare();
      if request.Some? {
        CompleteCompare(reply);
      }
    }
  }
}
