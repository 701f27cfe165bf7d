/** Client-side checks of the support form
    (staticfiles/js/components/modals/support-modal.js): the submit handler's
    ordered validation and the colour of the message-length counter. */
module SupportForm {
  import opened Wrappers

  /** Characters JavaScript's `String.prototype.trim` strips: the ASCII
      white space and line terminators, no-break space, the byte-order mark
      and the Unicode space separators. */
  predicate IsSpace(c: char)
  {
    c == ' ' || c == '\t' || c == '\n' || c == '\r' || c == '\U{000B}' || c == '\U{000C}'
    || c == '\U{00A0}' || c == '\U{FEFF}' || c == '\U{1680}' || ('\U{2000}' <= c <= '\U{200A}')
    || c == '\U{2028}' || c == '\U{2029}' || c == '\U{202F}' || c == '\U{205F}' || c == '\U{3000}'
  }

  /** Leading white space removed. */
  function TrimStart(s: string): (r: string)
    ensures |r| <= |s| && r == s[|s| - |r|..]
    ensures |r| > 0 ==> !IsSpace(r[0])
    ensures forall i :: 0 <= i < |s| - |r| ==> IsSpace(s[i])
  {
    if |s| > 0 && IsSpace(s[0]) then TrimStart(s[1..]) else s
  }

  /** Trailing white space removed. */
  function TrimEnd(s: string): (r: string)
    ensures |r| <= |s| && r == s[..|r|]
    ensures |r| > 0 ==> !IsSpace(r[|r| - 1])
    ensures forall i :: |r| <= i < |s| ==> IsSpace(s[i])
  {
    if |s| > 0 && IsSpace(s[|s| - 1]) then TrimEnd(s[..|s| - 1]) else s
  }

  /** `s.trim()`. */
  function Trim(s: string): string
  {
    TrimEnd(TrimStart(s))
  }

  /** A field is blank when nothing but white space is in it. */
  predicate Blank(s: string)
  {
    forall i :: 0 <= i < |s| ==> IsSpace(s[i])
  }

  /** `!s.trim()` is exactly "all white space". */
  lemma TrimEmptyIffBlank(s: string)
    ensures Trim(s) == [] <==> Blank(s)
  {
    var a := TrimStart(s);
    if Trim(s) != [] && |a| > 0 {
      assert !IsSpace(a[0]);
      assert a[0] == s[|s| - |a|];
    }
  }

  const MaxMessageLength := 2000

  /** The reasons the handler refuses to send, in the order it tests them.
      `EmailRequired` carries the category as the message prints it, first
      underscore turned into a space. */
  datatype FormError =
    | NoCategory
    | NoMessage
    | MessageTooLong
    | TwoFactorNeedsUsername
    | LoginNeedsIdentity
    | EmailRequired(shown: string)
    | TelegramNeedsUsername

  /** `category.replace('_', ' ')`: only the first underscore is replaced. */
  function ReplaceFirstUnderscore(s: string): (r: string)
    ensures |r| == |s|
  {
    if |s| == 0 then []
    else if s[0] == '_' then [' '] + s[1..]
    else [s[0]] + ReplaceFirstUnderscore(s[1..])
  }

  /** Up to and including the first underscore, underscores become spaces
      and other characters are copied; everything after it is copied. */
  lemma {:induction false} ReplaceFirstOnly(s: string)
    ensures var r := ReplaceFirstUnderscore(s);
      && (forall i :: 0 <= i < |s| && (forall j :: 0 <= j < i ==> s[j] != '_') ==>
            r[i] == (if s[i] == '_' then ' ' else s[i]))
      && (forall i, j :: 0 <= j < i < |s| && s[j] == '_' ==> r[i] == s[i])
    decreases |s|
  {
    if |s| > 0 && s[0] != '_' {
      var t := s[1..];
      ReplaceFirstOnly(t);
      var r := ReplaceFirstUnderscore(s);
      assert r == [s[0]] + ReplaceFirstUnderscore(t);
      forall i | 0 < i < |s| && (forall j :: 0 <= j < i ==> s[j] != '_')
        ensures r[i] == (if s[i] == '_' then ' ' else s[i])
      {
        assert forall j :: 0 <= j < i - 1 ==> t[j] == s[j + 1];
      }
      forall i, j | 0 <= j < i < |s| && s[j] == '_'
        ensures r[i] == s[i]
      {
        assert t[j - 1] == s[j];
      }
    }
  }

  /** Categories that need an e-mail address. */
  predicate NeedsEmail(category: string)
  {
    category == "login_problem" || category == "technical_issue" || category == "feature_request"
  }

  /** The three checks made for every category: a category is chosen and
      the message is neither blank nor too long. */
  predicate CommonChecksPass(category: string, message: string)
  {
    !Blank(category) && !Blank(message) && |message| <= MaxMessageLength
  }

  /** `handleSupportFormSubmit`'s checks: `None` when the form is sent, else
      the first check that fails. A missing username or e-mail field reads as
      the empty string. */
  function Validate(category: string, message: string, username: string, email: string): (r: Option<FormError>)
    ensures r == Some(NoCategory) <==> Blank(category)
    ensures r == Some(NoMessage) <==> !Blank(category) && Blank(message)
    ensures r == Some(MessageTooLong) <==>
      !Blank(category) && !Blank(message) && |message| > MaxMessageLength
    ensures r.Some? && r.value.EmailRequired? ==>
      NeedsEmail(category) && Blank(email) && r.value.shown == ReplaceFirstUnderscore(category)
    ensures r.Some? && (r.value.TwoFactorNeedsUsername? || r.value.TelegramNeedsUsername?) ==> Blank(username)
    ensures r == Some(LoginNeedsIdentity) ==> Blank(username) && Blank(email)
    ensures r == Some(TwoFactorNeedsUsername) <==>
      CommonChecksPass(category, message) && category == "2fa_problem" && Blank(username)
    ensures r == Some(LoginNeedsIdentity) <==>
      CommonChecksPass(category, message) && category == "login_problem" && Blank(username) && Blank(email)
    ensures r.Some? && r.value.EmailRequired? <==>
      && CommonChecksPass(category, message) && NeedsEmail(category) && Blank(email)
      && !(category == "login_problem" && Blank(username))
    ensures r == Some(TelegramNeedsUsername) <==>
      CommonChecksPass(category, message) && category == "telegram_problem" && Blank(username)
  {
    if Blank(category) then Some(NoCategory)
    else if Blank(message) then Some(NoMessage)
    else if |message| > MaxMessageLength then Some(MessageTooLong)
    else if category == "2fa_problem" && Blank(username) then Some(TwoFactorNeedsUsername)
    else if category == "login_problem" && Blank(username) && Blank(email) then Some(LoginNeedsIdentity)
    else if NeedsEmail(category) && Blank(email) then Some(EmailRequired(ReplaceFirstUnderscore(category)))
    else if category == "telegram_problem" && Blank(username) then Some(TelegramNeedsUsername)
    else None
  }

  /** The form's requirements stated on their own, one per category. */
  predicate Acceptable(category: string, message: string, username: string, email: string)
  {
    && !Blank(category)
    && !Blank(message)
    && |message| <= MaxMessageLength
    && (category == "2fa_problem" ==> !Blank(username))
    && (category == "telegram_problem" ==> !Blank(username))
    && (NeedsEmail(category) ==> !Blank(email))
  }

  /** The form is sent exactly when it meets every requirement. (The
      login check for a username or an e-mail is subsumed by the e-mail
      requirement.) */
  lemma ValidateAcceptsExactly(category: string, message: string, username: string, email: string)
    ensures Validate(category, message, username, email).None? <==> Acceptable(category, message, username, email)
  {
  }

  /** A login problem with neither username nor e-mail reports the missing
      identity, not the missing e-mail, because that check comes first. */
  lemma LoginIdentityBeforeEmail(message: string)
    requires !Blank(message) && |message| <= MaxMessageLength
    ensures Validate("login_problem", message, "", " ") == Some(LoginNeedsIdentity)
  {
    assert !Blank("login_problem") by { assert !IsSpace("login_problem"[0]); }
  }

  /** The e-mail message for a feature request reads "feature request". */
  lemma FeatureRequestLabel()
    ensures ReplaceFirstUnderscore("feature_request") == "feature request"
  {
    assert "feature_request" == "feature" + "_" + "request";
    assert "feature request" == "feature" + " " + "request";
    ReplaceAfterPrefix("feature", "request");
  }

  /** The first underscore after an underscore-free prefix becomes a space
      and the rest is copied unchanged. */
  lemma {:induction false} ReplaceAfterPrefix(a: string, b: string)
    requires forall i :: 0 <= i < |a| ==> a[i] != '_'
    ensures ReplaceFirstUnderscore(a + "_" + b) == a + " " + b
    decreases |a|
  {
    var s := a + "_" + b;
    if |a| == 0 {
      assert s == ['_'] + b;
    } else {
      assert s == [a[0]] + (a[1..] + "_" + b);
      ReplaceAfterPrefix(a[1..], b);
      assert a + " " + b == [a[0]] + (a[1..] + " " + b);
    }
  }

  datatype CounterColour = ErrorColour | WarningColour | SecondaryColour

  /** The counter colour for a message of `length` characters. */
  function CounterColourFor(length: nat): (c: CounterColour)
    ensures c == ErrorColour <==> length > 1800
    ensures c == WarningColour <==> 1500 < length <= 1800
    ensures c == SecondaryColour <==> length <= 1500
  {
    if length > 1800 then ErrorColour
    else if length > 1500 then WarningColour
    else SecondaryColour
  }

  /** Every message the length check refuses already shows the error
      colour. */
  lemma TooLongShowsError(message: string)
    requires |message| > MaxMessageLength
    ensures CounterColourFor(|message|) == ErrorColour
  {
  }
}
