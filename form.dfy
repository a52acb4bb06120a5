/**
 * The registration page's client-side checks: the email and mobile format
 * tests, the "required" sweep over the form's controls with its inline error
 * messages, and the category switch that decides which detail group is shown
 * and required. The DOM is reduced to the state these handlers read and
 * write: each control's id, group, value, `required` attribute, `error`
 * class, and the sibling elements that follow it.
 */
module Form {
  import opened Wrappers
  import opened Text

  // ---------------------------------------------------------------------
  // Trimming
  // ---------------------------------------------------------------------

  predicate AllWhitespace(s: string) {
    forall i :: 0 <= i < |s| ==> IsJsWhitespace(s[i])
  }

  /** `s` without its leading whitespace. */
  function TrimStart(s: string): string
    decreases |s|
  {
    if s != [] && IsJsWhitespace(s[0]) then TrimStart(s[1..]) else s
  }

  /** `s` without its trailing whitespace. */
  function TrimEnd(s: string): string
    decreases |s|
  {
    if s != [] && IsJsWhitespace(s[|s| - 1]) then TrimEnd(s[..|s| - 1]) else s
  }

  /** Trimming the start leaves a suffix that does not start with whitespace, and only whitespace is removed. */
  lemma {:induction false} TrimStartSpec(s: string)
    ensures var r := TrimStart(s);
      |r| <= |s| && r == s[|s| - |r|..] && (r == [] || !IsJsWhitespace(r[0])) && AllWhitespace(s[..|s| - |r|])
    decreases |s|
  {
    if s != [] && IsJsWhitespace(s[0]) {
      TrimStartSpec(s[1..]);
      var r := TrimStart(s[1..]);
      assert s[..|s| - |r|] == [s[0]] + s[1..][..|s| - 1 - |r|];
    }
  }

  /** Trimming the end leaves a prefix that does not end with whitespace, and only whitespace is removed. */
  lemma {:induction false} TrimEndSpec(s: string)
    ensures var r := TrimEnd(s);
      |r| <= |s| && r == s[..|r|] && (r == [] || !IsJsWhitespace(r[|r| - 1])) && AllWhitespace(s[|r|..])
    decreases |s|
  {
    if s != [] && IsJsWhitespace(s[|s| - 1]) {
      TrimEndSpec(s[..|s| - 1]);
      var r := TrimEnd(s[..|s| - 1]);
      assert s[|r|..] == s[..|s| - 1][|r|..] + [s[|s| - 1]];
    }
  }

  /** `s.trim()`. */
  function Trim(s: string): string {
    TrimEnd(TrimStart(s))
  }

  /** `value.trim() === ''`. */
  predicate Blank(s: string) {
    Trim(s) == ""
  }

  /** A value is blank exactly when every character of it is whitespace. */
  lemma BlankIff(s: string)
    ensures Blank(s) <==> AllWhitespace(s)
  {
    var t := TrimStart(s);
    TrimStartSpec(s);
    TrimEndSpec(t);
    if Blank(s) {
      assert AllWhitespace(t[0..]);
      assert s == s[..|s| - |t|] + t;
    }
  }

  /** What is left after trimming starts and ends with a non-blank character. */
  lemma TrimmedEndsAreNotWhitespace(s: string)
    requires !Blank(s)
    ensures !IsJsWhitespace(Trim(s)[0]) && !IsJsWhitespace(Trim(s)[|Trim(s)| - 1])
  {
    var t := TrimStart(s);
    TrimStartSpec(s);
    TrimEndSpec(t);
    assert Trim(s) == t[..|Trim(s)|];
  }

  // ---------------------------------------------------------------------
  // Email
  // ---------------------------------------------------------------------

  predicate NoWhitespace(s: string) {
    forall i :: 0 <= i < |s| ==> !IsJsWhitespace(s[i])
  }

  /** One part of `[^\s@]+`: non-empty, with no whitespace and no `@`. */
  predicate EmailPart(s: string) {
    s != [] && NoWhitespace(s) && HasNoChar(s, '@')
  }

  /**
   * `/^[^\s@]+@[^\s@]+\.[^\s@]+$/.test(s)`, read literally: `s` splits as
   * local part, `@`, domain, `.`, top-level part, each part matching `[^\s@]+`.
   */
  ghost predicate MatchesEmailPattern(s: string) {
    exists a: string, b: string, c: string ::
      s == a + "@" + b + "." + c && EmailPart(a) && EmailPart(b) && EmailPart(c)
  }

  /**
   * `isValidEmail(s)`: no whitespace, exactly one `@`, something before it,
   * and after it a `.` that is neither the first nor the last character.
   */
  function IsValidEmail(s: string): bool {
    NoWhitespace(s)
    && match IndexOf(s, '@')
       case None => false
       case Some(k) =>
         var rest := s[k + 1..];
         k > 0 && HasNoChar(rest, '@') && |rest| >= 3 && '.' in rest[1..|rest| - 1]
  }

  lemma SliceKeepsParts(s: string, lo: nat, hi: nat)
    requires lo <= hi <= |s| && NoWhitespace(s)
    ensures NoWhitespace(s[lo..hi])
  {
    assert forall i :: 0 <= i < hi - lo ==> s[lo..hi][i] == s[lo + i];
  }

  lemma NoWhitespaceConcat(x: string, y: string)
    requires NoWhitespace(x) && NoWhitespace(y)
    ensures NoWhitespace(x + y)
  {
    assert forall i :: 0 <= i < |x + y| ==> (x + y)[i] == if i < |x| then x[i] else y[i - |x|];
  }

  lemma HasNoCharConcat(x: string, y: string, c: char)
    requires HasNoChar(x, c) && HasNoChar(y, c)
    ensures HasNoChar(x + y, c)
  {
    assert forall i :: 0 <= i < |x + y| ==> (x + y)[i] == if i < |x| then x[i] else y[i - |x|];
  }

  lemma EmailFromPattern(s: string, a: string, b: string, c: string)
    requires s == a + "@" + b + "." + c && EmailPart(a) && EmailPart(b) && EmailPart(c)
    ensures IsValidEmail(s)
  {
    var rest := b + "." + c;
    assert s == a + ['@'] + rest;
    IndexOfAfterPrefix(a, '@', rest);
    assert s[|a| + 1..] == rest;
    assert rest[1..|rest| - 1][|b| - 1] == '.';
    HasNoCharConcat(b, ".", '@');
    HasNoCharConcat(b + ".", c, '@');
    NoWhitespaceConcat(a, "@");
    NoWhitespaceConcat(a + "@", b);
    NoWhitespaceConcat(a + "@" + b, ".");
    NoWhitespaceConcat(a + "@" + b + ".", c);
  }

  lemma HasNoCharSlice(s: string, lo: nat, hi: nat, c: char)
    requires lo <= hi <= |s| && HasNoChar(s, c)
    ensures HasNoChar(s[lo..hi], c)
  {
    assert forall i :: 0 <= i < hi - lo ==> s[lo..hi][i] == s[lo + i];
  }

  /** The regular expression matches once `s` is cut at its `@` (index `k`) and at a `.` (index `j`). */
  lemma PatternFromSplit(s: string, k: nat, j: nat)
    requires 0 < k && k + 1 < j && j + 1 < |s|
    requires s[k] == '@' && s[j] == '.' && NoWhitespace(s)
    requires HasNoChar(s[..k], '@') && HasNoChar(s[k + 1..], '@')
    ensures MatchesEmailPattern(s)
  {
    var a, b, c := s[..k], s[k + 1..j], s[j + 1..];
    assert s == a + "@" + b + "." + c;
    SliceKeepsParts(s, 0, k);
    assert s[0..k] == a;
    SliceKeepsParts(s, k + 1, j);
    SliceKeepsParts(s, j + 1, |s|);
    assert s[j + 1..|s|] == c;
    var rest := s[k + 1..];
    HasNoCharSlice(rest, 0, j - k - 1, '@');
    assert rest[0..j - k - 1] == b;
    HasNoCharSlice(rest, j - k, |rest|, '@');
    assert rest[j - k..|rest|] == c;
    assert EmailPart(a) && EmailPart(b) && EmailPart(c);
  }

  lemma PatternFromEmail(s: string)
    requires IsValidEmail(s)
    ensures MatchesEmailPattern(s)
  {
    var k := IndexOf(s, '@').value;
    var rest := s[k + 1..];
    var mid := rest[1..|rest| - 1];
    var jm :| 0 <= jm < |mid| && mid[jm] == '.';
    assert s[k + 2 + jm] == mid[jm];
    PatternFromSplit(s, k, k + 2 + jm);
  }

  /** The executable check and the regular expression accept the same strings. */
  lemma IsValidEmailIff(s: string)
    ensures IsValidEmail(s) <==> MatchesEmailPattern(s)
  {
    if IsValidEmail(s) {
      PatternFromEmail(s);
    }
    if MatchesEmailPattern(s) {
      var a, b, c :| s == a + "@" + b + "." + c && EmailPart(a) && EmailPart(b) && EmailPart(c);
      EmailFromPattern(s, a, b, c);
    }
  }

  lemma EmailExamples()
    ensures IsValidEmail("a@x.com")
    ensures !IsValidEmail("a@x")
    ensures !IsValidEmail("")
    ensures !IsValidEmail("@x.com")
  {
    EmailFromPattern("a@x.com", "a", "x", "com");
    assert "a@x"[1] == '@';
    assert IndexOf("a@x", '@') == Some(1);
    assert "@x.com"[0] == '@';
  }

  // ---------------------------------------------------------------------
  // Mobile
  // ---------------------------------------------------------------------

  /** The characters of the class `[- +]`. */
  predicate IsSeparator(c: char) {
    c == '-' || c == ' ' || c == '+'
  }

  /** `mobile.replace(/[- +]/g, '')`. */
  function StripSeparators(s: string): (r: string)
    ensures |r| <= |s|
    ensures forall i :: 0 <= i < |r| ==> !IsSeparator(r[i])
    decreases |s|
  {
    if s == [] then []
    else (if IsSeparator(s[0]) then [] else [s[0]]) + StripSeparators(s[1..])
  }

  /** Stripping distributes over concatenation. */
  lemma {:induction false} StripConcat(a: string, b: string)
    ensures StripSeparators(a + b) == StripSeparators(a) + StripSeparators(b)
    decreases |a|
  {
    if a == [] {
      assert a + b == b;
    } else {
      assert (a + b)[0] == a[0];
      assert (a + b)[1..] == a[1..] + b;
      StripConcat(a[1..], b);
    }
  }

  /** A string without separators is left as it is. */
  lemma {:induction false} StripKeepsPlainText(s: string)
    requires forall i :: 0 <= i < |s| ==> !IsSeparator(s[i])
    ensures StripSeparators(s) == s
    decreases |s|
  {
    if s != [] {
      StripKeepsPlainText(s[1..]);
    }
  }

  /** `isValidMobile(s)`: after stripping separators, 10 to 15 characters, all ASCII digits. */
  predicate IsValidMobile(s: string) {
    var d := StripSeparators(s);
    10 <= |d| <= 15 && AllDigits(d)
  }

  /** Inserting one more `-`, space or `+` anywhere never changes the verdict. */
  lemma InsertSeparatorInvariant(a: string, c: char, b: string)
    requires IsSeparator(c)
    ensures IsValidMobile(a + [c] + b) == IsValidMobile(a + b)
  {
    StripConcat(a + [c], b);
    StripConcat(a, [c]);
    StripConcat(a, b);
    assert [c][1..] == [];
    assert StripSeparators([c]) == [];
    assert StripSeparators(a) + [] == StripSeparators(a);
    assert StripSeparators(a + [c] + b) == StripSeparators(a + b);
  }

  /** A stripped number is judged as the original is. */
  lemma StripIdempotent(s: string)
    ensures IsValidMobile(StripSeparators(s)) == IsValidMobile(s)
  {
    StripKeepsPlainText(StripSeparators(s));
  }

  // ---------------------------------------------------------------------
  // Controls and their inline error messages
  // ---------------------------------------------------------------------

  /** The field groups of the page: always-present fields, and one container per category. */
  datatype Group = Common | StudentGroup | EmployeeGroup | BusinessGroup

  /** An element that follows a control: an inline `error-message` element, or anything else. */
  datatype Sibling = ErrorMessage(text: string) | OtherNode

  /**
   * A form control: its `id`, the group whose container holds it, its
   * current `value`, its `required` attribute, whether it has the `error`
   * class, and the element siblings that follow it.
   */
  datatype Control = Control(
    id: string, group: Group, value: string, required: bool, hasErrorClass: bool, after: seq<Sibling>)

  const RequiredMessage: string := "This field is required"
  const EmailMessage: string := "Please enter a valid email address"
  const MobileMessage: string := "Please enter a valid mobile number"

  /**
   * `highlightError(field, message)`: the field gets the `error` class, and
   * the error element right after it shows `message`, either by reusing an
   * existing one or by inserting a new one.
   */
  function HighlightError(c: Control, message: string): (d: Control)
    ensures d.hasErrorClass && d.after != [] && d.after[0] == ErrorMessage(message)
    ensures d.after[1..] == if c.after != [] && c.after[0].ErrorMessage? then c.after[1..] else c.after
    ensures d.id == c.id && d.group == c.group && d.value == c.value && d.required == c.required
  {
    var rest := if c.after != [] && c.after[0].ErrorMessage? then c.after[1..] else c.after;
    c.(hasErrorClass := true, after := [ErrorMessage(message)] + rest)
  }

  /** `removeError(field)`: the `error` class goes, and so does an error element right after the field. */
  function RemoveError(c: Control): (d: Control)
    ensures !d.hasErrorClass
    ensures d.after == if c.after != [] && c.after[0].ErrorMessage? then c.after[1..] else c.after
    ensures d.id == c.id && d.group == c.group && d.value == c.value && d.required == c.required
  {
    c.(hasErrorClass := false, after := if c.after != [] && c.after[0].ErrorMessage? then c.after[1..] else c.after)
  }

  /** Messages appear only directly after the control: at most one, never stacked. */
  predicate AtMostOneMessage(c: Control) {
    forall i :: 1 <= i < |c.after| ==> c.after[i].OtherNode?
  }

  /** Highlighting twice shows only the latest message, in the same single element. */
  lemma HighlightTwice(c: Control, m1: string, m2: string)
    ensures HighlightError(HighlightError(c, m1), m2) == HighlightError(c, m2)
  {
  }

  /** Removing after highlighting leaves what removing alone leaves. */
  lemma RemoveAfterHighlight(c: Control, m: string)
    ensures RemoveError(HighlightError(c, m)) == RemoveError(c)
  {
  }

  /** Neither helper can stack a second message after a control. */
  lemma MessagesStaySingle(c: Control, m: string)
    requires AtMostOneMessage(c)
    ensures AtMostOneMessage(HighlightError(c, m))
    ensures AtMostOneMessage(RemoveError(c))
    ensures forall i :: 0 <= i < |RemoveError(c).after| ==> RemoveError(c).after[i].OtherNode?
  {
    var d := HighlightError(c, m);
    forall i | 1 <= i < |d.after| ensures d.after[i].OtherNode? {
      if c.after != [] && c.after[0].ErrorMessage? {
        assert d.after[i] == c.after[i];
      } else {
        assert d.after[i] == c.after[i - 1];
        if i == 1 {
          assert c.after[0].OtherNode?;
        }
      }
    }
  }

  // ---------------------------------------------------------------------
  // The form
  // ---------------------------------------------------------------------

  /** `document.getElementById(id)`: the first control with that id. */
  function FindById(cs: seq<Control>, id: string): (r: Option<nat>)
    ensures r.Some? ==> r.value < |cs| && cs[r.value].id == id && forall k :: 0 <= k < r.value ==> cs[k].id != id
    ensures r.None? ==> forall k :: 0 <= k < |cs| ==> cs[k].id != id
    decreases |cs|
  {
    if cs == [] then None
    else if cs[0].id == id then Some(0)
    else match FindById(cs[1..], id)
      case None => None
      case Some(k) => Some(k + 1)
  }

  /** The page has the two controls the validator looks up by id. */
  predicate HasContactFields(cs: seq<Control>) {
    FindById(cs, "email").Some? && FindById(cs, "mobile").Some?
  }

  /** Two control lists that differ only in values the handlers change: ids in the same places. */
  predicate SameIds(a: seq<Control>, b: seq<Control>) {
    |a| == |b| && forall k :: 0 <= k < |a| ==> a[k].id == b[k].id
  }

  lemma FindByIdSameIds(a: seq<Control>, b: seq<Control>, id: string)
    requires SameIds(a, b)
    ensures FindById(a, id) == FindById(b, id)
  {
    var ra, rb := FindById(a, id), FindById(b, id);
    if ra.Some? && rb.Some? {
      assert !(ra.value < rb.value) && !(rb.value < ra.value);
    }
  }

  /** The required-field sweep applied to one control. */
  function SweepOne(c: Control): (d: Control)
    ensures !c.required ==> d == c
    ensures c.required ==> (d.hasErrorClass <==> Blank(c.value))
    ensures d.id == c.id && d.group == c.group && d.value == c.value && d.required == c.required
  {
    if !c.required then c
    else if Blank(c.value) then HighlightError(c, RequiredMessage)
    else RemoveError(c)
  }

  /** A control passes the required check: it is optional or its value is not blank. */
  predicate Filled(c: Control) {
    !c.required || !Blank(c.value)
  }

  /** Every control of `cs` passes the required check, counted from the end. */
  predicate AllFilled(cs: seq<Control>)
    decreases |cs|
  {
    cs == [] || (AllFilled(cs[..|cs| - 1]) && Filled(cs[|cs| - 1]))
  }

  lemma {:induction false} AllFilledIff(cs: seq<Control>)
    ensures AllFilled(cs) <==> forall k :: 0 <= k < |cs| ==> Filled(cs[k])
    decreases |cs|
  {
    if cs != [] {
      var front := cs[..|cs| - 1];
      AllFilledIff(front);
      assert forall k :: 0 <= k < |front| ==> front[k] == cs[k];
    }
  }

  /** The state after the `requiredFields.forEach` loop. */
  function Sweep(cs: seq<Control>): (ds: seq<Control>)
    ensures SameIds(cs, ds)
  {
    seq(|cs|, i requires 0 <= i < |cs| => SweepOne(cs[i]))
  }

  lemma SweepIsPointwise(cs: seq<Control>, ds: seq<Control>)
    requires |ds| == |cs| && forall k :: 0 <= k < |cs| ==> ds[k] == SweepOne(cs[k])
    ensures ds == Sweep(cs)
  {
  }

  /**
   * The `requiredFields.forEach` loop of `validateForm`: every required
   * control is checked, whatever the outcome for earlier ones.
   */
  method SweepRequired(before: seq<Control>) returns (cs: seq<Control>, allFilled: bool)
    ensures cs == Sweep(before)
    ensures allFilled == forall k :: 0 <= k < |before| && before[k].required ==> !Blank(before[k].value)
  {
    allFilled := true;
    cs := before;
    var i := 0;
    while i < |cs|
      invariant 0 <= i <= |cs| == |before|
      invariant forall k :: 0 <= k < i ==> cs[k] == SweepOne(before[k])
      invariant forall k :: i <= k < |cs| ==> cs[k] == before[k]
      invariant allFilled == AllFilled(before[..i])
    {
      var field := cs[i];
      assert before[..i + 1][..i] == before[..i];
      if field.required {
        if Blank(field.value) {
          cs := cs[i := HighlightError(field, RequiredMessage)];
          allFilled := false;
        } else {
          cs := cs[i := RemoveError(field)];
        }
      }
      i := i + 1;
    }
    assert before[..i] == before;
    AllFilledIff(before);
    SweepIsPointwise(before, cs);
  }

  /** The email rule: an empty value is not format-checked. */
  predicate EmailRejected(v: string) {
    v != "" && !IsValidEmail(v)
  }

  predicate MobileRejected(v: string) {
    v != "" && !IsValidMobile(v)
  }

  /**
   * One control after the whole of `validateForm`: the required sweep, then
   * the email format check if it is the email control, then the mobile
   * check if it is the mobile control.
   */
  function ValidatedOne(c: Control, isEmail: bool, isMobile: bool): (d: Control)
    ensures d.id == c.id && d.value == c.value && d.required == c.required
  {
    var swept := SweepOne(c);
    var checked := if isEmail && EmailRejected(c.value) then HighlightError(swept, EmailMessage) else swept;
    if isMobile && MobileRejected(c.value) then HighlightError(checked, MobileMessage) else checked
  }

  /** The state after the whole of `validateForm`. */
  function Validated(cs: seq<Control>): (ds: seq<Control>)
    requires HasContactFields(cs)
    ensures SameIds(cs, ds)
  {
    var e, m := FindById(cs, "email").value, FindById(cs, "mobile").value;
    seq(|cs|, k requires 0 <= k < |cs| => ValidatedOne(cs[k], k == e, k == m))
  }

  /** `highlightError(field, message)` on control `k` when `rejected` holds. */
  function ShowFormatError(cs: seq<Control>, k: nat, rejected: bool, message: string): (ds: seq<Control>)
    requires k < |cs|
    ensures SameIds(cs, ds)
  {
    if rejected then cs[k := HighlightError(cs[k], message)] else cs
  }

  /** Validation is the sweep, then the email check, then the mobile check, in that order. */
  lemma ValidatedSteps(cs: seq<Control>)
    requires HasContactFields(cs)
    ensures var e, m := FindById(cs, "email").value, FindById(cs, "mobile").value;
      var swept := Sweep(cs);
      Validated(cs) == ShowFormatError(ShowFormatError(swept, e, EmailRejected(cs[e].value), EmailMessage),
                                       m, MobileRejected(cs[m].value), MobileMessage)
  {
    var e, m := FindById(cs, "email").value, FindById(cs, "mobile").value;
    var swept := Sweep(cs);
    var s1 := ShowFormatError(swept, e, EmailRejected(cs[e].value), EmailMessage);
    var s2 := ShowFormatError(s1, m, MobileRejected(cs[m].value), MobileMessage);
    assert e != m;
    forall k | 0 <= k < |cs| ensures s2[k] == Validated(cs)[k] {
      assert Validated(cs)[k] == ValidatedOne(cs[k], k == e, k == m);
      assert swept[k] == SweepOne(cs[k]);
      if k == e {
        assert s1[k] == if EmailRejected(cs[k].value) then HighlightError(swept[k], EmailMessage) else swept[k];
        assert s2[k] == s1[k];
      } else if k == m {
        assert s1[k] == swept[k];
      } else {
        assert s2[k] == s1[k] == swept[k];
      }
    }
  }

  /** What `validateForm` returns. */
  predicate FormAccepts(cs: seq<Control>)
    requires HasContactFields(cs)
  {
    var e, m := FindById(cs, "email").value, FindById(cs, "mobile").value;
    (forall k :: 0 <= k < |cs| && cs[k].required ==> !Blank(cs[k].value))
    && !EmailRejected(cs[e].value)
    && !MobileRejected(cs[m].value)
  }

  /**
   * All violations are collected: after validation every required control
   * whose value is blank is marked and followed by an error message.
   */
  lemma EveryBlankRequiredFieldFlagged(cs: seq<Control>, k: nat)
    requires HasContactFields(cs) && k < |cs|
    requires cs[k].required && Blank(cs[k].value)
    ensures Validated(cs)[k].hasErrorClass
    ensures Validated(cs)[k].after != [] && Validated(cs)[k].after[0].ErrorMessage?
  {
  }

  /** An empty email or mobile gets only the "required" message, never a format message. */
  lemma EmptyContactOnlyRequired(cs: seq<Control>, id: string)
    requires HasContactFields(cs)
    requires id == "email" || id == "mobile"
    requires var k := FindById(cs, id).value; cs[k].required && cs[k].value == ""
    ensures var k := FindById(cs, id).value;
      Validated(cs)[k].after != [] && Validated(cs)[k].after[0] == ErrorMessage(RequiredMessage)
  {
    var k := FindById(cs, id).value;
    BlankIff(cs[k].value);
  }

  /** A whitespace-only email is required-flagged and then format-flagged, so the format message is what shows. */
  lemma BlankEmailGetsFormatMessage(cs: seq<Control>)
    requires HasContactFields(cs)
    requires var e := FindById(cs, "email").value; cs[e].required && cs[e].value == " "
    ensures var e := FindById(cs, "email").value;
      Validated(cs)[e].after != [] && Validated(cs)[e].after[0] == ErrorMessage(EmailMessage)
  {
    var e := FindById(cs, "email").value;
    assert cs[e].value[0] == ' ';
    assert IndexOf(cs[e].value, '@') == None;
  }

  /**
   * When email and mobile are required, the form is accepted exactly when
   * validation leaves no required control marked as erroneous.
   */
  lemma AcceptsIffNoRequiredFieldMarked(cs: seq<Control>)
    requires HasContactFields(cs)
    requires cs[FindById(cs, "email").value].required && cs[FindById(cs, "mobile").value].required
    ensures FormAccepts(cs) <==>
      forall k :: 0 <= k < |cs| && cs[k].required ==> !Validated(cs)[k].hasErrorClass
  {
    var e, m := FindById(cs, "email").value, FindById(cs, "mobile").value;
    forall k | 0 <= k < |cs| && cs[k].required
      ensures Validated(cs)[k].hasErrorClass <==>
        Blank(cs[k].value) || (k == e && EmailRejected(cs[k].value)) || (k == m && MobileRejected(cs[k].value))
    {
      ValidatedMarks(cs, k);
    }
  }

  /** Which required controls validation leaves marked. */
  lemma ValidatedMarks(cs: seq<Control>, k: nat)
    requires HasContactFields(cs) && k < |cs| && cs[k].required
    ensures var e, m := FindById(cs, "email").value, FindById(cs, "mobile").value;
      Validated(cs)[k].hasErrorClass <==>
        Blank(cs[k].value) || (k == e && EmailRejected(cs[k].value)) || (k == m && MobileRejected(cs[k].value))
  {
    var e, m := FindById(cs, "email").value, FindById(cs, "mobile").value;
    assert Validated(cs)[k] == ValidatedOne(cs[k], k == e, k == m);
  }

  /** The container of a category's detail fields; other values have none. */
  function GroupOf(category: string): Option<Group> {
    if category == "student" then Some(StudentGroup)
    else if category == "employee" then Some(EmployeeGroup)
    else if category == "business" then Some(BusinessGroup)
    else None
  }

  /** `resetFieldsRequirement(container, required)` on the controls of group `g`. */
  function SetRequired(cs: seq<Control>, g: Group, required: bool): (ds: seq<Control>)
    ensures SameIds(cs, ds)
  {
    seq(|cs|, i requires 0 <= i < |cs| => if cs[i].group == g then cs[i].(required := required) else cs[i])
  }

  /** The `required` attributes after the change handler for `category` ran. */
  function AfterCategoryChange(cs: seq<Control>, category: string): seq<Control> {
    if category == "student" then
      SetRequired(SetRequired(SetRequired(cs, EmployeeGroup, false), BusinessGroup, false), StudentGroup, true)
    else if category == "employee" then
      SetRequired(SetRequired(SetRequired(cs, StudentGroup, false), BusinessGroup, false), EmployeeGroup, true)
    else if category == "business" then
      SetRequired(SetRequired(SetRequired(cs, StudentGroup, false), EmployeeGroup, false), BusinessGroup, true)
    else cs
  }

  /**
   * After choosing a category, exactly its detail group is required; the
   * other two are not, and nothing else about any control changes.
   */
  lemma CategoryGroupsExclusive(cs: seq<Control>, category: string)
    requires GroupOf(category).Some?
    ensures var ds := AfterCategoryChange(cs, category);
      |ds| == |cs|
      && forall k :: 0 <= k < |cs| ==>
        && (cs[k].group == Common ==> ds[k] == cs[k])
        && (cs[k].group == GroupOf(category).value ==> ds[k] == cs[k].(required := true))
        && (cs[k].group != Common && cs[k].group != GroupOf(category).value ==> ds[k] == cs[k].(required := false))
  {
  }

  /** Selecting the same category again changes nothing further. */
  lemma CategoryChangeIdempotent(cs: seq<Control>, category: string)
    ensures AfterCategoryChange(AfterCategoryChange(cs, category), category) == AfterCategoryChange(cs, category)
  {
  }

  /** The controls after page load: the employee and business groups lose `required`. */
  function Initial(cs: seq<Control>): (ds: seq<Control>)
    ensures forall k :: 0 <= k < |ds| && ds[k].group in {EmployeeGroup, BusinessGroup} ==> !ds[k].required
    ensures SameIds(cs, ds)
  {
    SetRequired(SetRequired(cs, EmployeeGroup, false), BusinessGroup, false)
  }

  /** The page's form: its controls, and which category containers are displayed. */
  class RegistrationForm {
    var controls: seq<Control>
    var shown: set<Group>

    predicate Valid()
      reads this
    {
      HasContactFields(controls)
    }

    /** Page load: the employee and business groups are made optional. */
    constructor (page: seq<Control>, initiallyShown: set<Group>)
      requires HasContactFields(page)
      ensures Valid()
      ensures controls == Initial(page) && shown == initiallyShown
    {
      controls := page;
      shown := initiallyShown;
      new;
      ResetFieldsRequirement(EmployeeGroup, false);
      ResetFieldsRequirement(BusinessGroup, false);
      FindByIdSameIds(page, controls, "email");
      FindByIdSameIds(page, controls, "mobile");
    }

    /** `resetFieldsRequirement`: sets or clears `required` on every control of group `g`. */
    method ResetFieldsRequirement(g: Group, required: bool)
      modifies this
      ensures controls == SetRequired(old(controls), g, required)
      ensures shown == old(shown)
    {
      var i := 0;
      while i < |controls|
        invariant 0 <= i <= |controls| == |old(controls)|
        invariant shown == old(shown)
        invariant forall k :: 0 <= k < i ==> controls[k] == SetRequired(old(controls), g, required)[k]
        invariant forall k :: i <= k < |controls| ==> controls[k] == old(controls)[k]
      {
        if controls[i].group == g {
          controls := controls[i := controls[i].(required := required)];
        }
        i := i + 1;
      }
    }

    /** The `change` handler of the category radio buttons. */
    method OnCategoryChange(category: string)
      requires Valid()
      modifies this
      ensures Valid()
      ensures controls == AfterCategoryChange(old(controls), category)
      ensures shown == if GroupOf(category).Some? then {GroupOf(category).value} else {}
    {
      var before := controls;
      shown := {};
      if category == "student" {
        shown := {StudentGroup};
        ResetFieldsRequirement(EmployeeGroup, false);
        ResetFieldsRequirement(BusinessGroup, false);
        ResetFieldsRequirement(StudentGroup, true);
      } else if category == "employee" {
        shown := {EmployeeGroup};
        ResetFieldsRequirement(StudentGroup, false);
        ResetFieldsRequirement(BusinessGroup, false);
        ResetFieldsRequirement(EmployeeGroup, true);
      } else if category == "business" {
        shown := {BusinessGroup};
        ResetFieldsRequirement(StudentGroup, false);
        ResetFieldsRequirement(EmployeeGroup, false);
        ResetFieldsRequirement(BusinessGroup, true);
      }
      FindByIdSameIds(before, controls, "email");
      FindByIdSameIds(before, controls, "mobile");
    }

    /** The required-field sweep of `validateForm`, applied to the page's controls. */
    method CheckRequiredFields() returns (allFilled: bool)
      modifies this
      ensures controls == Sweep(old(controls))
      ensures allFilled == forall k :: 0 <= k < |old(controls)| && old(controls)[k].required ==> !Blank(old(controls)[k].value)
      ensures shown == old(shown)
    {
      var cs;
      cs, allFilled := SweepRequired(controls);
      controls := cs;
    }

    /** `validateForm`: the required-field sweep, then the email and mobile formats. */
    method ValidateForm() returns (isValid: bool)
      requires Valid()
      modifies this
      ensures Valid()
      ensures isValid == FormAccepts(old(controls))
      ensures controls == Validated(old(controls))
      ensures shown == old(shown)
    {
      isValid := CheckRequiredFields();
      var cs := controls;
      FindByIdSameIds(old(controls), cs, "email");
      FindByIdSameIds(old(controls), cs, "mobile");
      var e := FindById(cs, "email").value;
      var m := FindById(cs, "mobile").value;
      ghost var swept := cs;
      if cs[e].value != "" && !IsValidEmail(cs[e].value) {
        cs := cs[e := HighlightError(cs[e], EmailMessage)];
        isValid := false;
      }
      assert cs == ShowFormatError(swept, e, EmailRejected(swept[e].value), EmailMessage);
      ghost var emailChecked := cs;
      if cs[m].value != "" && !IsValidMobile(cs[m].value) {
        cs := cs[m := HighlightError(cs[m], MobileMessage)];
        isValid := false;
      }
      assert cs == ShowFormatError(emailChecked, m, MobileRejected(swept[m].value), MobileMessage);
      ValidatedSteps(old(controls));
      controls := cs;
    }
  }
}
