/**
 * Client-side validation of the contact form: trimming, the e-mail pattern,
 * per-field validation with its error markers, and the submit decision.
 *
 * A form control is reduced to what validation reads and writes: its kind, its
 * `required` attribute, its value, its `error` class, and the `.error-msg`
 * elements in its parent (in document order).
 */
module Forms {

  /**
   * JavaScript white space and line terminators: the characters `\s` matches in
   * a regular expression and `String.prototype.trim` removes.
   */
  predicate IsSpace(c: char) {
    || c == '\t' || c == '\n' || c == '\U{B}' || c == '\U{C}' || c == '\r' || c == ' '
    || c == '\U{A0}' || c == '\U{1680}' || ('\U{2000}' <= c <= '\U{200A}')
    || c == '\U{2028}' || c == '\U{2029}' || c == '\U{202F}' || c == '\U{205F}'
    || c == '\U{3000}' || c == '\U{FEFF}'
  }

  ghost predicate Blank(s: string) {
    forall k :: 0 <= k < |s| ==> IsSpace(s[k])
  }

  /** Number of white-space characters at the start of `s`. */
  function LeadingSpaces(s: string): (n: nat)
    ensures n <= |s|
    ensures forall k :: 0 <= k < n ==> IsSpace(s[k])
    ensures n < |s| ==> !IsSpace(s[n])
  {
    if s != [] && IsSpace(s[0]) then 1 + LeadingSpaces(s[1..]) else 0
  }

  /** Number of white-space characters at the end of `s`. */
  function TrailingSpaces(s: string): (n: nat)
    ensures n <= |s|
    ensures forall k :: |s| - n <= k < |s| ==> IsSpace(s[k])
    ensures n < |s| ==> !IsSpace(s[|s| - 1 - n])
  {
    if s != [] && IsSpace(s[|s| - 1]) then 1 + TrailingSpaces(s[..|s| - 1]) else 0
  }

  /** `String.prototype.trim`: white space removed from both ends. */
  function Trim(s: string): (r: string)
    ensures r == [] <==> Blank(s)
    ensures r != [] ==> !IsSpace(r[0]) && !IsSpace(r[|r| - 1])
    ensures LeadingSpaces(s) + |r| <= |s| && r == s[LeadingSpaces(s)..LeadingSpaces(s) + |r|]
    ensures Blank(s[..LeadingSpaces(s)]) && Blank(s[LeadingSpaces(s) + |r|..])
  {
    var t := s[LeadingSpaces(s)..];
    var r := t[..|t| - TrailingSpaces(t)];
    assert r != [] ==> r[0] == t[0] && r[|r| - 1] == t[|t| - 1 - TrailingSpaces(t)];
    assert Blank(t[|t| - TrailingSpaces(t)..]);
    r
  }

  /** A character of the class `[^\s@]`. */
  predicate PlainChar(c: char) {
    !IsSpace(c) && c != '@'
  }

  predicate AllPlain(s: string) {
    forall k :: 0 <= k < |s| ==> PlainChar(s[k])
  }

  /**
   * The language of `/^[^\s@]+@[^\s@]+\.[^\s@]+$/`: a non-empty run of plain
   * characters, `@`, a non-empty run, `.`, a non-empty run.
   */
  predicate IsValidEmail(s: string) {
    exists at, dot :: 0 < at < |s| && 0 < dot < |s| && MatchesAt(s, at, dot)
  }

  /** `s` splits as plain run, `@` at `at`, plain run, `.` at `dot`, plain run. */
  predicate MatchesAt(s: string, at: nat, dot: nat) {
    && 0 < at && at + 1 < dot && dot + 1 < |s|
    && s[at] == '@' && s[dot] == '.'
    && AllPlain(s[..at]) && AllPlain(s[at + 1..dot]) && AllPlain(s[dot + 1..])
  }

  function Count(s: string, c: char): (r: nat)
    ensures r <= |s|
  {
    if s == [] then 0 else (if s[0] == c then 1 else 0) + Count(s[1..], c)
  }

  /** The part after the `@` has a `.` that is neither its first nor its last character. */
  ghost predicate HasInnerDot(d: string) {
    exists k :: 0 < k < |d| - 1 && d[k] == '.'
  }

  /**
   * An address in plain words: no white space, exactly one `@`, something
   * before it, and an inner `.` after it.
   */
  ghost predicate WellFormedAddress(s: string) {
    && (forall k :: 0 <= k < |s| ==> !IsSpace(s[k]))
    && Count(s, '@') == 1
    && exists at :: 0 < at < |s| && s[at] == '@' && HasInnerDot(s[at + 1..])
  }

  lemma {:induction false} CountAppend(a: string, b: string, c: char)
    ensures Count(a + b, c) == Count(a, c) + Count(b, c)
  {
    if a != [] {
      assert (a + b)[1..] == a[1..] + b;
      CountAppend(a[1..], b, c);
    } else {
      assert a + b == b;
    }
  }

  lemma {:induction false} CountZeroIffAbsent(s: string, c: char)
    ensures Count(s, c) == 0 <==> forall k :: 0 <= k < |s| ==> s[k] != c
  {
    if s != [] {
      CountZeroIffAbsent(s[1..], c);
      if Count(s, c) == 0 {
        forall k | 0 < k < |s| ensures s[k] != c {
          assert s[k] == s[1..][k - 1];
        }
      }
    }
  }

  /** Splits `s` round position `i`: the count of `c` is the sum over the three parts. */
  lemma CountAround(s: string, i: nat, c: char)
    requires i < |s|
    ensures Count(s, c) == Count(s[..i], c) + (if s[i] == c then 1 else 0) + Count(s[i + 1..], c)
  {
    assert s == s[..i] + ([s[i]] + s[i + 1..]);
    CountAppend(s[..i], [s[i]] + s[i + 1..], c);
    CountAppend([s[i]], s[i + 1..], c);
  }

  /** The regular expression accepts exactly the well-formed addresses. */
  lemma IsValidEmailIff(s: string)
    ensures IsValidEmail(s) <==> WellFormedAddress(s)
  {
    if IsValidEmail(s) {
      MatchIsWellFormed(s);
    }
    if WellFormedAddress(s) {
      WellFormedMatches(s);
    }
  }

  lemma MatchIsWellFormed(s: string)
    requires IsValidEmail(s)
    ensures WellFormedAddress(s)
  {
    var at, dot :| 0 < at < |s| && 0 < dot < |s| && MatchesAt(s, at, dot);
    MatchHasNoSpace(s, at, dot);
    MatchHasOneAt(s, at, dot);
    var d := s[at + 1..];
    assert d[dot - at - 1] == '.';
    assert HasInnerDot(d);
  }

  lemma MatchHasNoSpace(s: string, at: nat, dot: nat)
    requires MatchesAt(s, at, dot)
    ensures forall k :: 0 <= k < |s| ==> !IsSpace(s[k])
  {
  }

  lemma MatchHasOneAt(s: string, at: nat, dot: nat)
    requires MatchesAt(s, at, dot)
    ensures Count(s, '@') == 1
  {
    var d := s[at + 1..];
    assert d[..dot - at - 1] == s[at + 1..dot] && d[dot - at..] == s[dot + 1..];
    PlainHasNoAt(s[..at]);
    PlainHasNoAt(s[at + 1..dot]);
    PlainHasNoAt(s[dot + 1..]);
    CountAround(s, at, '@');
    CountAround(d, dot - at - 1, '@');
  }

  lemma PlainHasNoAt(t: string)
    requires AllPlain(t)
    ensures Count(t, '@') == 0
  {
  }

  lemma WellFormedMatches(s: string)
    requires WellFormedAddress(s)
    ensures IsValidEmail(s)
  {
    var at :| 0 < at < |s| && s[at] == '@' && HasInnerDot(s[at + 1..]);
    var d := s[at + 1..];
    var k :| 0 < k < |d| - 1 && d[k] == '.';
    var dot := at + 1 + k;
    SingleAtSplitsPlain(s, at);
    assert s[at + 1..dot] == d[..k] && s[dot + 1..] == d[k + 1..];
    assert AllPlain(d[..k]) && AllPlain(d[k + 1..]) by {
      PlainSlices(d, k);
    }
    assert MatchesAt(s, at, dot);
  }

  /** With no white space and a single `@` at `at`, both sides of it are plain runs. */
  lemma SingleAtSplitsPlain(s: string, at: nat)
    requires at < |s| && s[at] == '@' && Count(s, '@') == 1
    requires forall k :: 0 <= k < |s| ==> !IsSpace(s[k])
    ensures AllPlain(s[..at]) && AllPlain(s[at + 1..])
  {
    CountAround(s, at, '@');
    CountZeroIffAbsent(s[..at], '@');
    CountZeroIffAbsent(s[at + 1..], '@');
  }

  lemma PlainSlices(d: string, k: nat)
    requires k < |d| && AllPlain(d)
    ensures AllPlain(d[..k]) && AllPlain(d[k + 1..])
  {
  }

  /** The control's tag; `Input(true)` is an `<input type="email">`. */
  datatype Control = Input(isEmail: bool) | TextArea | Select

  /** The two messages validation can attach. */
  datatype FieldError = Required | BadEmail

  /** The text shown for each error. */
  function Message(e: FieldError): string {
    match e
    case Required => "এই ফিল্ডটি আবশ্যক"
    case BadEmail => "সঠিক ইমেইল ঠিকানা দিন"
  }

  /**
   * A form control: `marked` is its `error` class, `messages` the `.error-msg`
   * elements currently in its parent.
   */
  datatype Field = Field(control: Control, required: bool, value: string, marked: bool, messages: seq<FieldError>)

  /** What `validateField` returns, and the control as it leaves it. */
  datatype Checked = Checked(valid: bool, field: Field)

  /**
   * Validates one control: removes its `error` class and the first error message
   * in its parent, then marks it and appends a message for each failed rule.
   */
  function ValidateField(f: Field): (r: Checked)
    ensures r.field.control == f.control && r.field.required == f.required && r.field.value == f.value
    ensures f.required && Blank(f.value) ==>
              !r.valid && r.field.messages == WithoutFirst(f.messages) + [Required]
    ensures f.control == Input(true) && !Blank(f.value) && !IsValidEmail(Trim(f.value)) ==>
              !r.valid && r.field.messages == WithoutFirst(f.messages) + [BadEmail]
    ensures !(f.required && Blank(f.value)) && !(f.control == Input(true) && !Blank(f.value) && !IsValidEmail(Trim(f.value))) ==>
              r.valid && r.field.messages == WithoutFirst(f.messages)
    ensures r.field.marked <==> !r.valid
  {
    var value := Trim(f.value);
    var cleared := f.(marked := false, messages := WithoutFirst(f.messages));
    var afterRequired :=
      if f.required && value == [] then ShowFieldError(cleared, Required) else cleared;
    var afterEmail :=
      if f.control == Input(true) && value != [] && !IsValidEmail(value) then ShowFieldError(afterRequired, BadEmail)
      else afterRequired;
    Checked(!(f.required && value == []) && !(f.control == Input(true) && value != [] && !IsValidEmail(value)), afterEmail)
  }

  /** The parent's messages after the first one (the one `querySelector` finds) is removed. */
  function WithoutFirst(m: seq<FieldError>): seq<FieldError> {
    if m == [] then [] else m[1..]
  }

  /** Marks the control and appends `e` to its parent's error messages. */
  function ShowFieldError(f: Field, e: FieldError): (r: Field)
    ensures r.marked && r.messages == f.messages + [e]
    ensures r.control == f.control && r.required == f.required && r.value == f.value
  {
    f.(marked := true, messages := f.messages + [e])
  }

  /** Validation never leaves more than one error message where there was at most one. */
  lemma AtMostOneMessage(f: Field)
    requires |f.messages| <= 1
    ensures |ValidateField(f).field.messages| <= 1
    ensures ValidateField(f).valid <==> ValidateField(f).field.messages == []
  {
  }

  /**
   * A required control is valid exactly when its value is not blank and, for an
   * e-mail input, the trimmed value is an address.
   */
  lemma RequiredFieldValid(f: Field)
    requires f.required
    ensures ValidateField(f).valid <==> !Blank(f.value) && (f.control == Input(true) ==> WellFormedAddress(Trim(f.value)))
  {
    IsValidEmailIff(Trim(f.value));
  }

  /** The controls `handleSubmit` validates: `input[required]` and `textarea[required]`. */
  predicate CheckedOnSubmit(f: Field) {
    f.required && !f.control.Select?
  }

  /** The contact form's controls, in document order. */
  class FormHandler {
    /** False when `#contactForm` or `#formMsg` is missing: then no handler is attached. */
    const mounted: bool
    var fields: seq<Field>

    constructor (formPresent: bool, msgPresent: bool, controls: seq<Field>)
      ensures mounted <==> formPresent && msgPresent
      ensures fields == controls
    {
      mounted := formPresent && msgPresent;
      fields := controls;
    }

    /** A control loses focus: it is validated. */
    method Blur(i: nat)
      requires mounted && i < |fields|
      modifies this
      ensures fields == old(fields)[i := ValidateField(old(fields)[i]).field]
    {
      var checked := ValidateField(fields[i]);
      fields := fields[i := checked.field];
    }

    /** The user edits control `i` to `value`: it is revalidated only if it is marked. */
    method InputEvent(i: nat, value: string)
      requires mounted && i < |fields|
      modifies this
      ensures var edited := old(fields)[i].(value := value);
              fields == old(fields)[i := if edited.marked then ValidateField(edited).field else edited]
    {
      fields := fields[i := fields[i].(value := value)];
      if fields[i].marked {
        var checked := ValidateField(fields[i]);
        fields := fields[i := checked.field];
      }
    }

    /**
     * The accepted submit after its delay: `form.reset()` puts every control back
     * to its default value, then every `error` class and every `.error-msg` in
     * the form is removed. `defaults` holds each control's default value.
     */
    method CompleteSubmit(defaults: seq<string>)
      requires mounted && |defaults| == |fields|
      modifies this
      ensures |fields| == |old(fields)|
      ensures forall k :: 0 <= k < |fields| ==>
                fields[k] == old(fields)[k].(value := defaults[k], marked := false, messages := [])
    {
      var k := 0;
      while k < |fields|
        invariant 0 <= k <= |fields| == |old(fields)|
        invariant forall j :: 0 <= j < k ==>
                    fields[j] == old(fields)[j].(value := defaults[j], marked := false, messages := [])
        invariant forall j :: k <= j < |fields| ==> fields[j] == old(fields)[j]
      {
        fields := fields[k := fields[k].(value := defaults[k], marked := false, messages := [])];
        k := k + 1;
      }
    }

    /**
     * Validates every required input and textarea, without stopping at the
     * first failure, and submits only when all of them are valid.
     */
    method HandleSubmit() returns (submit: bool)
      requires mounted
      modifies this
      ensures |fields| == |old(fields)|
      ensures forall k :: 0 <= k < |fields| ==>
                fields[k] == if CheckedOnSubmit(old(fields)[k]) then ValidateField(old(fields)[k]).field else old(fields)[k]
      ensures submit <==> forall k :: 0 <= k < |fields| && CheckedOnSubmit(old(fields)[k]) ==>
                !Blank(old(fields)[k].value) &&
                (old(fields)[k].control == Input(true) ==> IsValidEmail(Trim(old(fields)[k].value)))
    {
      submit := true;
      var k := 0;
      while k < |fields|
        invariant 0 <= k <= |fields| == |old(fields)|
        invariant forall j :: 0 <= j < k ==>
                    fields[j] == if CheckedOnSubmit(old(fields)[j]) then ValidateField(old(fields)[j]).field else old(fields)[j]
        invariant forall j :: k <= j < |fields| ==> fields[j] == old(fields)[j]
        invariant submit <==> forall j :: 0 <= j < k && CheckedOnSubmit(old(fields)[j]) ==> ValidateField(old(fields)[j]).valid
      {
        if CheckedOnSubmit(fields[k]) {
          var checked := ValidateField(fields[k]);
          fields := fields[k := checked.field];
          if !checked.valid {
            submit := false;
          }
        }
        k := k + 1;
      }
    }
  }
}
