/**
 * app/settings/SettingsClient.tsx: the settings page's state.  Four notification
 * preferences are switched on and off one at a time, the theme is one of the
 * `next-themes` values, saving shows a busy button, and the avatar shows the user's
 * initials when there is no picture.
 */
module Settings {
  import opened Wrappers
  import opened Text

  /** The four notification preferences. */
  datatype Notifications = Notifications(emailAnalysis: bool, emailWeekly: bool,
                                         emailGoals: bool, pushAnalysis: bool)

  /** The preferences a new visit to the page starts from. */
  const InitialNotifications := Notifications(true, true, false, false)

  /** The name of one preference, as the four toggle buttons address them. */
  datatype Preference = EmailAnalysis | EmailWeekly | EmailGoals | PushAnalysis

  function Get(n: Notifications, p: Preference): bool {
    match p
    case EmailAnalysis => n.emailAnalysis
    case EmailWeekly => n.emailWeekly
    case EmailGoals => n.emailGoals
    case PushAnalysis => n.pushAnalysis
  }

  /** The analysis and weekly e-mails start on; goal reminders and push start off. */
  lemma InitialValues()
    ensures Get(InitialNotifications, EmailAnalysis) && Get(InitialNotifications, EmailWeekly)
    ensures !Get(InitialNotifications, EmailGoals) && !Get(InitialNotifications, PushAnalysis)
  {
  }

  /**
   * `setNotifications({ ...notifications, p: !notifications.p })`: the chosen preference
   * flips and the other three keep their values.
   */
  function Toggled(n: Notifications, p: Preference): (r: Notifications)
    ensures Get(r, p) == !Get(n, p)
    ensures forall q :: q != p ==> Get(r, q) == Get(n, q)
  {
    match p
    case EmailAnalysis => n.(emailAnalysis := !n.emailAnalysis)
    case EmailWeekly => n.(emailWeekly := !n.emailWeekly)
    case EmailGoals => n.(emailGoals := !n.emailGoals)
    case PushAnalysis => n.(pushAnalysis := !n.pushAnalysis)
  }

  /** Two clicks on the same button restore the preferences. */
  lemma ToggleTwice(n: Notifications, p: Preference)
    ensures Toggled(Toggled(n, p), p) == n
  {
  }

  /** Clicks on different buttons do not interfere: their order does not matter. */
  lemma TogglesCommute(n: Notifications, p: Preference, q: Preference)
    ensures Toggled(Toggled(n, p), q) == Toggled(Toggled(n, q), p)
  {
  }

  /** A button's `variant`: `default` when selected, `outline` otherwise. */
  datatype Variant = Default | Outline

  /** `notifications.p ? 'default' : 'outline'` and its `On` / `Off` caption. */
  function ToggleButton(n: Notifications, p: Preference): (r: (Variant, string))
    ensures r.0 == Default <==> Get(n, p)
    ensures r.1 == (if Get(n, p) then "On" else "Off")
  {
    if Get(n, p) then (Default, "On") else (Outline, "Off")
  }

  /** The three theme buttons. */
  const ThemeChoices: seq<string> := ["light", "dark", "system"]

  /** `theme === value ? 'default' : 'outline'` on the button for `value`. */
  function ThemeButton(theme: Option<string>, value: string): (v: Variant)
    ensures v == Default <==> theme == Some(value)
  {
    if theme == Some(value) then Default else Outline
  }

  /** A theme button is highlighted only for the theme in force, so at most one at a time. */
  lemma AtMostOneThemeHighlighted(theme: Option<string>, i: nat, j: nat)
    requires i < j < |ThemeChoices|
    ensures !(ThemeButton(theme, ThemeChoices[i]) == Default && ThemeButton(theme, ThemeChoices[j]) == Default)
  {
  }

  /** Choosing a theme highlights its own button. */
  lemma ChosenThemeHighlighted(i: nat)
    requires i < |ThemeChoices|
    ensures ThemeButton(Some(ThemeChoices[i]), ThemeChoices[i]) == Default
  {
  }

  /** `n => n[0]` joined: the first character of each part; an empty part gives `undefined`, which joins as "". */
  function FirstChars(parts: seq<string>): (r: string)
    ensures |r| <= |parts|
    decreases |parts|
  {
    if parts == [] then []
    else (if parts[0] == [] then [] else [parts[0][0]]) + FirstChars(parts[1..])
  }

  /**
   * The first character of every word of `s`, a word being a maximal run without ' ';
   * `atStart` says whether the character before `s` was a space (or there was none).
   */
  function WordStarts(s: string, atStart: bool): string
    decreases |s|
  {
    if s == [] then []
    else (if atStart && s[0] != ' ' then [s[0]] else []) + WordStarts(s[1..], s[0] == ' ')
  }

  lemma {:induction false} WordStartsNoSpace(s: string, atStart: bool)
    requires ' ' !in s
    ensures WordStarts(s, atStart) == if atStart && s != [] then [s[0]] else []
    decreases |s|
  {
    if s != [] {
      assert ' ' !in s[1..] by { assert forall k :: 0 <= k < |s[1..]| ==> s[1..][k] == s[k + 1]; }
      WordStartsNoSpace(s[1..], false);
    }
  }

  lemma {:induction false} WordStartsSegment(s: string, i: nat, atStart: bool)
    requires i < |s| && s[i] == ' ' && ' ' !in s[..i]
    ensures WordStarts(s, atStart) == (if atStart && i > 0 then [s[0]] else []) + WordStarts(s[i + 1..], true)
    decreases i
  {
    if i > 0 {
      assert s[0] == s[..i][0];
      assert s[1..][..i - 1] == s[..i][1..];
      WordStartsSegment(s[1..], i - 1, false);
      assert s[1..][i..] == s[i + 1..];
    }
  }

  /** The parts of `split(' ')` begin exactly where the words of the name begin. */
  lemma {:induction false} FirstCharsOfSplit(s: string)
    ensures FirstChars(Split(s, ' ')) == WordStarts(s, true)
    decreases |s|
  {
    if ' ' !in s {
      WordStartsNoSpace(s, true);
    } else {
      var i := IndexOf(s, ' ');
      FirstCharsOfSplit(s[i + 1..]);
      WordStartsSegment(s, i, true);
      var parts := Split(s, ' ');
      assert parts == [s[..i]] + Split(s[i + 1..], ' ');
      assert parts[1..] == Split(s[i + 1..], ' ');
      assert i > 0 ==> s[..i][0] == s[0];
    }
  }

  /**
   * `user.name?.split(' ').map(n => n[0]).join('').toUpperCase() || 'U'`: the upper-cased
   * first letters of the words of the name, or "U" when there is no name or no word.
   */
  function Initials(name: Option<string>): (r: string)
    ensures r != [] && forall i :: 0 <= i < |r| ==> !IsLowerAscii(r[i])
    ensures name.None? ==> r == "U"
    ensures name.Some? && WordStarts(name.value, true) == [] ==> r == "U"
    ensures name.Some? && WordStarts(name.value, true) != [] ==> r == ToUpper(WordStarts(name.value, true))
  {
    if name.None? then "U"
    else
      FirstCharsOfSplit(name.value);
      var joined := ToUpper(FirstChars(Split(name.value, ' ')));
      if joined == [] then "U" else joined
  }

  /** A two-word name gives two capitals. */
  lemma InitialsExamples()
    ensures Initials(Some("ada lovelace")) == "AL"
  {
    TwoWordStarts("ada", "lovelace");
    assert "ada" + " " + "lovelace" == "ada lovelace";
    assert ToUpper(['a', 'l']) == "AL";
  }

  /** Without a name, or with an empty one, the avatar shows "U". */
  lemma InitialsFallback()
    ensures Initials(Some("")) == "U" && Initials(None) == "U"
  {
  }

  /** Two words separated by one space start with their first characters. */
  lemma TwoWordStarts(a: string, b: string)
    requires a != [] && b != [] && ' ' !in a && ' ' !in b
    ensures WordStarts(a + " " + b, true) == [a[0], b[0]]
  {
    var s := a + " " + b;
    assert s[..|a|] == a;
    WordStartsSegment(s, |a|, true);
    assert s[|a| + 1..] == b;
    WordStartsNoSpace(b, true);
  }

  /** `saving ? 'Saving...' : 'Save Preferences'` on a button disabled while saving. */
  function SaveButton(saving: bool): (r: (bool, string))
    ensures r.0 == saving
    ensures r.1 == if saving then "Saving..." else "Save Preferences"
  {
    (saving, if saving then "Saving..." else "Save Preferences")
  }

  class SettingsForm {
    var notifications: Notifications
    var theme: Option<string>
    var saving: bool

    /** The page's initial state; the theme is whatever `next-themes` reports. */
    constructor (currentTheme: Option<string>)
      ensures notifications == InitialNotifications && theme == currentTheme && !saving
    {
      notifications := InitialNotifications;
      theme := currentTheme;
      saving := false;
    }

    /** A click on the toggle button of preference `p`. */
    method Toggle(p: Preference)
      modifies this
      ensures notifications == Toggled(old(notifications), p)
      ensures theme == old(theme) && saving == old(saving)
    {
      notifications := Toggled(notifications, p);
    }

    /** `setTheme(value)` from one of the three theme buttons. */
    method SetTheme(value: string)
      modifies this
      ensures theme == Some(value)
      ensures notifications == old(notifications) && saving == old(saving)
    {
      theme := Some(value);
    }

    /** `handleSaveNotifications` up to its timer: the save button turns busy. */
    method BeginSave()
      modifies this
      ensures saving
      ensures notifications == old(notifications) && theme == old(theme)
    {
      saving := true;
    }

    /** `handleSaveNotifications` after its timer: the button is released. */
    method CompleteSave()
      modifies this
      ensures !saving
      ensures notifications == old(notifications) && theme == old(theme)
    {
      saving := false;
    }
  }
}
