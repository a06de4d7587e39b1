/** pkg/email/email.go: the address check validateEmail and the validating
    constructor NewEmailSender. The pattern is the "valid e-mail address" of
    the HTML Living Standard, section 4.10.5.1.5, written out as predicates:
    a local part of atext characters and dots, one '@', and a domain of
    dot-separated labels. */
module Email {
  import opened Common
  import opened Text

  datatype EmailError = ErrInvalidEmail

  /** The bounds of the length check that runs before the pattern. */
  const MinLength: nat := 3
  const MaxLength: nat := 1024

  /** The characters the local part may use. */
  predicate LocalChar(c: char)
  {
    IsAlnum(c) || c in ".!#$%&'*+/=?^_`{|}~-"
  }

  /** `[a-zA-Z0-9.!#$%&'*+/=?^_`{|}~-]+`. */
  predicate LocalPart(s: string)
  {
    |s| > 0 && forall i :: 0 <= i < |s| ==> LocalChar(s[i])
  }

  predicate LabelChar(c: char)
  {
    IsAlnum(c) || c == '-'
  }

  /** `[a-zA-Z0-9](?:[a-zA-Z0-9-]{0,61}[a-zA-Z0-9])?`: 1 to 63 letters,
      digits and hyphens, starting and ending with a letter or digit. */
  predicate Label(l: string)
  {
    1 <= |l| <= 63 && IsAlnum(l[0]) && IsAlnum(l[|l| - 1])
    && forall i :: 0 <= i < |l| ==> LabelChar(l[i])
  }

  /** A label followed by any number of `.label`: every piece between the
      dots is a label. */
  predicate Domain(d: string)
  {
    var labels := Split(d, '.');
    forall i :: 0 <= i < |labels| ==> Label(labels[i])
  }

  /** The position of the first '@'. */
  function FirstAt(s: string): (r: Option<nat>)
    ensures r.Some? ==> r.value < |s| && s[r.value] == '@' && forall j :: 0 <= j < r.value ==> s[j] != '@'
    ensures r.None? ==> forall j :: 0 <= j < |s| ==> s[j] != '@'
  {
    if |s| == 0 then None
    else if s[0] == '@' then Some(0)
    else match FirstAt(s[1..])
      case None => None
      case Some(i) => Some(i + 1)
  }

  /** The anchored pattern. The local part cannot hold an '@', so the '@' it
      matches is the first one. */
  predicate MatchesPattern(s: string)
  {
    var at := FirstAt(s);
    at.Some? && LocalPart(s[..at.value]) && Domain(s[at.value + 1..])
  }

  /** validateEmail: the length check, then the pattern. */
  function ValidateEmail(email: string): Option<EmailError>
  {
    if |email| < MinLength || |email| > MaxLength then Some(ErrInvalidEmail)
    else if !MatchesPattern(email) then Some(ErrInvalidEmail)
    else None
  }

  /** No character a domain may hold is an '@'. */
  lemma DomainHasNoAt(d: string)
    requires Domain(d)
    ensures forall k :: 0 <= k < |d| ==> d[k] != '@'
  {
    var labels := Split(d, '.');
    assert NoneContains(labels, '@') by {
      forall i, j | 0 <= i < |labels| && 0 <= j < |labels[i]| ensures labels[i][j] != '@' {
        assert Label(labels[i]);
      }
    }
    JoinSplit(d, '.');
    JoinAvoids(labels, ".", '@');
  }

  /** The pattern is the regular expression's concatenation: a string
      matches exactly when it is some local part, '@', and some domain. */
  lemma PatternIsConcatenation(s: string)
    ensures MatchesPattern(s) <==> exists l, d :: LocalPart(l) && Domain(d) && s == l + "@" + d
  {
    if MatchesPattern(s) {
      var i := FirstAt(s).value;
      assert s == s[..i] + "@" + s[i + 1..];
    }
    if exists l, d :: LocalPart(l) && Domain(d) && s == l + "@" + d {
      var l, d :| LocalPart(l) && Domain(d) && s == l + "@" + d;
      PatternSplit(s, l, d);
    }
  }

  /** Where a local part and a domain meet, the '@' is the first one. */
  lemma PatternSplit(s: string, l: string, d: string)
    requires LocalPart(l) && Domain(d) && s == l + "@" + d
    ensures FirstAt(s) == Some(|l|) && s[..|l|] == l && s[|l| + 1..] == d
    ensures MatchesPattern(s)
  {
    assert forall j :: 0 <= j < |l| ==> s[j] == l[j] && LocalChar(l[j]);
    assert s[|l|] == '@';
    assert s[..|l|] == l && s[|l| + 1..] == d;
  }

  /** A matching address holds exactly one '@'. */
  lemma PatternOneAt(s: string)
    requires MatchesPattern(s)
    ensures Count(s, '@') == 1
  {
    var i := FirstAt(s).value;
    var l, d := s[..i], s[i + 1..];
    assert s == l + "@" + d;
    DomainHasNoAt(d);
    assert forall j :: 0 <= j < |l| ==> LocalChar(l[j]);
    CountAbsent(l, '@');
    CountAbsent(d, '@');
    CountAppend(l, "@", '@');
    CountAppend(l + "@", d, '@');
  }

  /** The shortest match has three characters, so the lower length bound
      never refuses an address the pattern would accept. */
  lemma PatternShortest(s: string)
    requires MatchesPattern(s)
    ensures |s| >= MinLength
  {
    var i := FirstAt(s).value;
    var d := s[i + 1..];
    assert Label(Split(d, '.')[0]);
  }

  /** validateEmail accepts exactly the matching addresses of at most 1024
      characters; everything else is ErrInvalidEmail. */
  lemma ValidateEmailIff(email: string)
    ensures ValidateEmail(email).None? <==> |email| <= MaxLength && MatchesPattern(email)
    ensures ValidateEmail(email).Some? ==> ValidateEmail(email).value == ErrInvalidEmail
  {
    if MatchesPattern(email) {
      PatternShortest(email);
    }
  }

  /** A few addresses, each decided by one clause. */
  lemma ValidateEmailExamples()
    ensures ValidateEmail("a@b").None?
    ensures ValidateEmail("ab").Some?
    ensures ValidateEmail("a@-b").Some?
    ensures ValidateEmail("@bc").Some?
  {
    assert Split("b", '.') == ["b"] by { SplitNoSeparator("b", '.'); }
    PatternSplit("a@b", "a", "b");
    assert Split("-b", '.') == ["-b"] by { SplitNoSeparator("-b", '.'); }
    assert FirstAt("a@-b") == Some(1);
    assert ("a@-b")[2..] == "-b";
    assert !Label("-b");
    assert Split("-b", '.')[0] == "-b";
    assert !Domain("-b");
    assert FirstAt("@bc") == Some(0);
  }

  // ---- NewEmailSender ----

  datatype EmailSenderConfig = EmailSenderConfig(Email: string, Pass: string, Host: string, Port: string)

  /** The sender without its smtp.Auth value. */
  datatype SMTPSender = SMTPSender(Email: string, Pass: string, Host: string, Port: string)

  function NewEmailSender(cfg: EmailSenderConfig): Result<SMTPSender, EmailError>
  {
    if ValidateEmail(cfg.Email).Some? then Err(ErrInvalidEmail)
    else Ok(SMTPSender(cfg.Email, cfg.Pass, cfg.Host, cfg.Port))
  }

  /** NewEmailSender refuses exactly the invalid sender addresses, and
      otherwise copies the four settings. */
  lemma NewEmailSenderIff(cfg: EmailSenderConfig)
    ensures NewEmailSender(cfg).Err? <==> !(|cfg.Email| <= MaxLength && MatchesPattern(cfg.Email))
    ensures NewEmailSender(cfg).Err? ==> NewEmailSender(cfg).error == ErrInvalidEmail
    ensures NewEmailSender(cfg).Ok? ==>
              var s := NewEmailSender(cfg).value;
              s.Email == cfg.Email && s.Pass == cfg.Pass && s.Host == cfg.Host && s.Port == cfg.Port
  {
    ValidateEmailIff(cfg.Email);
  }
}
