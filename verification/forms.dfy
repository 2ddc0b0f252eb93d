/** The WTForms forms of the application: RegistrationForm, TaskForm and
    CategoryForm. Each field runs its validators in order; DataRequired stops
    the field's chain when it fails, any other failed validator records an
    error and lets the chain go on, and an inline validate_<field> method runs
    after the field's own validators. A form is accepted when no field
    recorded an error. */
module Forms {
  import opened Wrappers
  import opened Text
  import opened Models
  import opened Seqs

  datatype FormError =
    | UsernameRequired | UsernameLength | UsernameTaken
    | EmailRequired | EmailTooLong | EmailFormat | EmailTaken
    | PasswordRequired | PasswordTooShort
    | ConfirmRequired | ConfirmMismatch
    | TitleRequired | TitleTooLong | CategoryNotAChoice | PriorityNotAChoice
    | NameRequired | NameTooLong | ColorTooLong

  /** DataRequired on a text field: present and not only white space, that
      is, s.strip() is not empty (the last ensures of Text.Strip). */
  predicate Required(s: string)
  {
    !AllSpace(s)
  }

  // ---------------------------------------------------------------------
  // The e-mail pattern ^[a-zA-Z0-9._%+-]+@[a-zA-Z0-9.-]+\.[a-zA-Z]{2,}$

  predicate IsAsciiLetter(c: char)
  {
    'a' <= c <= 'z' || 'A' <= c <= 'Z'
  }

  predicate IsAsciiDigit(c: char)
  {
    '0' <= c <= '9'
  }

  /** [a-zA-Z0-9._%+-] */
  predicate IsLocalChar(c: char)
  {
    IsAsciiLetter(c) || IsAsciiDigit(c) || c == '.' || c == '_' || c == '%' || c == '+' || c == '-'
  }

  /** [a-zA-Z0-9.-] */
  predicate IsDomainChar(c: char)
  {
    IsAsciiLetter(c) || IsAsciiDigit(c) || c == '.' || c == '-'
  }

  predicate AllLocal(s: string)
  {
    forall i :: 0 <= i < |s| ==> IsLocalChar(s[i])
  }

  predicate AllDomain(s: string)
  {
    forall i :: 0 <= i < |s| ==> IsDomainChar(s[i])
  }

  predicate AllLetters(s: string)
  {
    forall i :: 0 <= i < |s| ==> IsAsciiLetter(s[i])
  }

  /** The pattern read as a split of s: the '@' at i and the final '.' at j. */
  ghost predicate PatternSplitAt(s: string, i: int, j: int)
  {
    0 < i && i + 1 < j && j + 2 < |s| &&
    AllLocal(s[..i]) && s[i] == '@' && AllDomain(s[i + 1..j]) && s[j] == '.' &&
    AllLetters(s[j + 1..])
  }

  /** The whole string is one match of the pattern body. */
  ghost predicate PatternBody(s: string)
  {
    exists i, j :: PatternSplitAt(s, i, j)
  }

  /** re.match with the pattern: '$' matches at the end of the string or
      before a newline that ends it. */
  ghost predicate EmailPattern(s: string)
  {
    PatternBody(s) || (s != [] && s[|s| - 1] == '\n' && PatternBody(s[..|s| - 1]))
  }

  /** The first position of c in s: the first match of Find. */
  function IndexOf(s: string, c: char): (r: Option<nat>)
    ensures r.None? ==> c !in s
    ensures r.Some? ==> r.value < |s| && s[r.value] == c && c !in s[..r.value]
  {
    Find(s, (x: char) => x == c)
  }

  /** The last position of c in s. */
  function LastIndexOf(s: string, c: char): (r: Option<nat>)
    ensures r.None? ==> c !in s
    ensures r.Some? ==> r.value < |s| && s[r.value] == c && c !in s[r.value + 1..]
  {
    if s == [] then None
    else if s[|s| - 1] == c then Some(|s| - 1)
    else
      var r := LastIndexOf(s[..|s| - 1], c);
      assert r.Some? ==> s[r.value + 1..] == s[..|s| - 1][r.value + 1..] + [s[|s| - 1]];
      r
  }

  /** The part after '@': domain characters, a final '.', then two or more letters. */
  function DomainOk(d: string): bool
  {
    match LastIndexOf(d, '.')
    case None => false
    case Some(j) => 0 < j && AllDomain(d[..j]) && |d| - (j + 1) >= 2 && AllLetters(d[j + 1..])
  }

  /** The pattern body, checked by locating the '@' and the last '.'. */
  function BodyOk(s: string): bool
  {
    match IndexOf(s, '@')
    case None => false
    case Some(i) => 0 < i && AllLocal(s[..i]) && DomainOk(s[i + 1..])
  }

  /** The format test of validate_email, app/forms.py:27. */
  function EmailFormatOk(s: string): bool
  {
    BodyOk(s) || (s != [] && s[|s| - 1] == '\n' && BodyOk(s[..|s| - 1]))
  }

  lemma BodyOkGivesPattern(s: string)
    requires BodyOk(s)
    ensures PatternBody(s)
  {
    var i := IndexOf(s, '@').value;
    var d := s[i + 1..];
    var j := LastIndexOf(d, '.').value;
    assert d[..j] == s[i + 1..i + 1 + j];
    assert d[j + 1..] == s[i + 1 + j + 1..];
    assert PatternSplitAt(s, i, i + 1 + j);
  }

  /** Where the pattern splits s, the '@' is the first one. */
  lemma SplitAtFirstAt(s: string, i: int, j: int)
    requires PatternSplitAt(s, i, j)
    ensures IndexOf(s, '@') == Some(i)
  {
  }

  /** Where the pattern splits s, the '.' at j is the last one. */
  lemma SplitAtLastDot(s: string, i: int, j: int)
    requires PatternSplitAt(s, i, j)
    ensures LastIndexOf(s[i + 1..], '.') == Some(j - (i + 1))
  {
    var d := s[i + 1..];
    var jd := j - (i + 1);
    assert d[jd] == '.';
  }

  /** The domain test passes at the last '.' of d when the parts around it do. */
  lemma DomainOkAt(d: string, j: nat)
    requires LastIndexOf(d, '.') == Some(j)
    requires 0 < j && AllDomain(d[..j]) && |d| - (j + 1) >= 2 && AllLetters(d[j + 1..])
    ensures DomainOk(d)
  {
  }

  lemma SplitGivesBodyOk(s: string, i: int, j: int)
    requires PatternSplitAt(s, i, j)
    ensures BodyOk(s)
  {
    SplitAtFirstAt(s, i, j);
    SplitAtLastDot(s, i, j);
    var d := s[i + 1..];
    var jd := j - (i + 1);
    assert d[..jd] == s[i + 1..j];
    assert d[jd + 1..] == s[j + 1..];
    DomainOkAt(d, jd);
  }

  lemma PatternGivesBodyOk(s: string)
    requires PatternBody(s)
    ensures BodyOk(s)
  {
    var i, j :| PatternSplitAt(s, i, j);
    SplitGivesBodyOk(s, i, j);
  }

  lemma BodyOkIsPattern(s: string)
    ensures BodyOk(s) <==> PatternBody(s)
  {
    if BodyOk(s) {
      BodyOkGivesPattern(s);
    }
    if PatternBody(s) {
      PatternGivesBodyOk(s);
    }
  }

  /** The hand-coded test accepts exactly the strings re.match accepts. */
  lemma EmailFormatIsPattern(s: string)
    ensures EmailFormatOk(s) <==> EmailPattern(s)
  {
    BodyOkIsPattern(s);
    if s != [] {
      BodyOkIsPattern(s[..|s| - 1]);
    }
  }

  /** Without an '@' no address is well-formed. */
  lemma NoAtRejected(s: string)
    requires '@' !in s
    ensures !EmailPattern(s)
  {
    EmailFormatIsPattern(s);
    if s != [] {
      assert '@' !in s[..|s| - 1];
    }
  }

  /** "not-an-email" is refused. */
  lemma NotAnEmailRejected()
    ensures !EmailPattern("not-an-email")
  {
    NoAtRejected("not-an-email");
  }

  /** "a@b.co" is accepted. */
  lemma ShortEmailAccepted()
    ensures EmailPattern("a@b.co")
  {
    var s := "a@b.co";
    assert s[..1] == "a" && s[2..3] == "b" && s[4..] == "co";
    assert PatternSplitAt(s, 1, 3);
  }

  /** Under re.match, '$' also accepts one newline at the very end. */
  lemma TrailingNewlineAccepted()
    ensures EmailPattern("a@b.co\n")
  {
    ShortEmailAccepted();
    assert "a@b.co\n"[..6] == "a@b.co";
  }

  // ---------------------------------------------------------------------
  // RegistrationForm

  const MinUsername: nat := 3
  const MinPassword: nat := 6

  datatype RegistrationInput = RegistrationInput(
    username: string, email: string, password: string, password2: string)

  /** username: DataRequired, Length(3, 64), then validate_username. */
  function UsernameErrors(u: string, usernames: set<string>): seq<FormError>
  {
    if !Required(u) then [UsernameRequired]
    else (if MinUsername <= |u| <= MaxUsername then [] else [UsernameLength]) +
         (if u in usernames then [UsernameTaken] else [])
  }

  /** validate_email: the format first; only a well-formed address is
      looked up. */
  function ValidateEmail(e: string, emails: set<string>): seq<FormError>
  {
    if !EmailFormatOk(e) then [EmailFormat]
    else if e in emails then [EmailTaken]
    else []
  }

  /** email: DataRequired, then validate_email. */
  function EmailErrors(e: string, emails: set<string>): seq<FormError>
  {
    if !Required(e) then [EmailRequired] else ValidateEmail(e, emails)
  }

  /** password: DataRequired, Length(min=6). */
  function PasswordErrors(p: string): seq<FormError>
  {
    if !Required(p) then [PasswordRequired]
    else if |p| < MinPassword then [PasswordTooShort]
    else []
  }

  /** password2: DataRequired, EqualTo('password'). */
  function ConfirmErrors(p2: string, p: string): seq<FormError>
  {
    if !Required(p2) then [ConfirmRequired]
    else if p2 != p then [ConfirmMismatch]
    else []
  }

  /** RegistrationForm as written, against the usernames and e-mails already
      taken. */
  function RegistrationErrors(f: RegistrationInput, usernames: set<string>, emails: set<string>): seq<FormError>
  {
    UsernameErrors(f.username, usernames) + EmailErrors(f.email, emails) +
    PasswordErrors(f.password) + ConfirmErrors(f.password2, f.password)
  }

  /** The registration is accepted exactly when every field rule holds. */
  lemma RegistrationAccepted(f: RegistrationInput, usernames: set<string>, emails: set<string>)
    ensures RegistrationErrors(f, usernames, emails) == [] <==>
              Required(f.username) && MinUsername <= |f.username| <= MaxUsername &&
              f.username !in usernames &&
              Required(f.email) && EmailPattern(f.email) && f.email !in emails &&
              Required(f.password) && |f.password| >= MinPassword &&
              Required(f.password2) && f.password2 == f.password
  {
    EmailFormatIsPattern(f.email);
  }

  /** A taken username is always reported. */
  lemma DuplicateUsernameRejected(f: RegistrationInput, usernames: set<string>, emails: set<string>)
    requires Required(f.username) && f.username in usernames
    ensures UsernameTaken in RegistrationErrors(f, usernames, emails)
  {
    assert UsernameTaken in UsernameErrors(f.username, usernames);
  }

  /** A well-formed address already in use is reported as taken; a malformed
      one is reported as malformed and never as taken. */
  lemma EmailErrorPrecedence(f: RegistrationInput, usernames: set<string>, emails: set<string>)
    requires Required(f.email)
    ensures EmailPattern(f.email) && f.email in emails ==>
              EmailTaken in RegistrationErrors(f, usernames, emails)
    ensures !EmailPattern(f.email) ==>
              EmailFormat in RegistrationErrors(f, usernames, emails) &&
              EmailTaken !in RegistrationErrors(f, usernames, emails)
  {
    EmailErrorsComeFromEmailField(f, usernames, emails);
    EmailFormatIsPattern(f.email);
  }

  /** Only the e-mail field reports format or duplicate errors. */
  lemma EmailErrorsComeFromEmailField(f: RegistrationInput, usernames: set<string>, emails: set<string>)
    ensures EmailTaken in RegistrationErrors(f, usernames, emails) <==> EmailTaken in EmailErrors(f.email, emails)
    ensures EmailFormat in RegistrationErrors(f, usernames, emails) <==> EmailFormat in EmailErrors(f.email, emails)
  {
    UsernameHasNoEmailError(f.username, usernames);
    PasswordsHaveNoEmailError(f.password, f.password2);
    assert RegistrationErrors(f, usernames, emails) ==
           UsernameErrors(f.username, usernames) + EmailErrors(f.email, emails) +
           PasswordErrors(f.password) + ConfirmErrors(f.password2, f.password);
  }

  lemma UsernameHasNoEmailError(u: string, usernames: set<string>)
    ensures EmailTaken !in UsernameErrors(u, usernames)
    ensures EmailFormat !in UsernameErrors(u, usernames)
  {
    var r := UsernameErrors(u, usernames);
    if Required(u) {
      var a: seq<FormError> := if MinUsername <= |u| <= MaxUsername then [] else [UsernameLength];
      var b: seq<FormError> := if u in usernames then [UsernameTaken] else [];
      assert r == a + b;
      assert forall x :: x in a + b ==> x == UsernameLength || x == UsernameTaken;
    }
  }

  lemma PasswordsHaveNoEmailError(p: string, p2: string)
    ensures EmailTaken !in PasswordErrors(p) && EmailTaken !in ConfirmErrors(p2, p)
    ensures EmailFormat !in PasswordErrors(p) && EmailFormat !in ConfirmErrors(p2, p)
  {
    var a := PasswordErrors(p);
    var b := ConfirmErrors(p2, p);
    assert a == [] || a == [PasswordRequired] || a == [PasswordTooShort];
    assert b == [] || b == [ConfirmRequired] || b == [ConfirmMismatch];
  }

  /** An address of 122 characters that the form lets through. */
  function LongEmail(): (e: string)
    ensures |e| == 122 > MaxEmail
  {
    "a@" + seq(116, _ => 'b') + ".com"
  }

  lemma LongEmailWellFormed()
    ensures EmailFormatOk(LongEmail())
  {
    var e := LongEmail();
    var d := seq(116, _ => 'b') + ".com";
    assert e[..1] == "a" && e[1] == '@';
    assert IndexOf(e, '@') == Some(1);
    assert e[2..] == d;
    assert d[116] == '.' && d[117..] == "com";
    assert LastIndexOf(d, '.') == Some(116);
    assert d[..116] == seq(116, _ => 'b');
    DomainOkAt(d, 116);
  }

  /** As written nothing bounds the e-mail by its column width: a 122
      character address passes the registration form. */
  lemma LongEmailPassesAsWritten()
    ensures |LongEmail()| > MaxEmail
    ensures RegistrationErrors(RegistrationInput("alice", LongEmail(), "secret", "secret"), {}, {}) == []
  {
    var e := LongEmail();
    LongEmailWellFormed();
    assert !IsSpace(e[0]);
    assert EmailErrors(e, {}) == [];
    SampleFieldsAccepted();
  }

  /** The other fields of that registration pass. */
  lemma SampleFieldsAccepted()
    ensures UsernameErrors("alice", {}) == []
    ensures PasswordErrors("secret") == [] && ConfirmErrors("secret", "secret") == []
  {
    assert !IsSpace("alice"[0]);
    assert !IsSpace("secret"[0]);
  }

  /** The e-mail field with Length(max=120) added, which its column calls for;
      the length error does not stop the chain. */
  function BoundedEmailErrors(e: string, emails: set<string>): seq<FormError>
  {
    if !Required(e) then [EmailRequired]
    else (if |e| <= MaxEmail then [] else [EmailTooLong]) + ValidateEmail(e, emails)
  }

  /** RegistrationForm with the e-mail bounded by its column width. */
  function BoundedRegistrationErrors(f: RegistrationInput, usernames: set<string>, emails: set<string>): seq<FormError>
  {
    UsernameErrors(f.username, usernames) + BoundedEmailErrors(f.email, emails) +
    PasswordErrors(f.password) + ConfirmErrors(f.password2, f.password)
  }

  /** The bounded form accepts what the form as written accepts, less the
      addresses longer than the column. */
  lemma BoundedRegistrationAccepted(f: RegistrationInput, usernames: set<string>, emails: set<string>)
    ensures BoundedRegistrationErrors(f, usernames, emails) == [] <==>
              RegistrationErrors(f, usernames, emails) == [] && |f.email| <= MaxEmail
  {
  }

  // ---------------------------------------------------------------------
  // TaskForm and CategoryForm

  /** The priority choices (1 high, 2 medium, 3 low) and the form default. */
  const PriorityChoices: set<int> := {1, 2, 3}

  /** The choice the routes add for "no category". */
  const NoCategoryChoice: int := 0

  datatype TaskInput = TaskInput(
    title: string, description: string, categoryChoice: int, priority: int, dueText: string)

  /** title: DataRequired, Length(max=200). */
  function TitleErrors(t: string): seq<FormError>
  {
    if !Required(t) then [TitleRequired]
    else if |t| > MaxTitle then [TitleTooLong]
    else []
  }

  /** category_id: a SelectField whose choices are 0 and the ids of the acting
      user's own categories. */
  function CategoryChoiceErrors(c: int, ownCategoryIds: set<int>): seq<FormError>
  {
    if c == NoCategoryChoice || c in ownCategoryIds then [] else [CategoryNotAChoice]
  }

  /** priority: a SelectField over PriorityChoices. */
  function PriorityErrors(p: int): seq<FormError>
  {
    if p in PriorityChoices then [] else [PriorityNotAChoice]
  }

  /** TaskForm, field by field (description and due_date have no validators). */
  function TaskFormErrors(f: TaskInput, ownCategoryIds: set<int>): seq<FormError>
  {
    TitleErrors(f.title) + CategoryChoiceErrors(f.categoryChoice, ownCategoryIds) +
    PriorityErrors(f.priority)
  }

  /** A task form is accepted exactly when the title is given and fits, the
      category is "none" or one of the user's own, and the priority is a
      choice; the stored, stripped title is then non-empty and fits. */
  lemma TaskFormAccepted(f: TaskInput, ownCategoryIds: set<int>)
    ensures TaskFormErrors(f, ownCategoryIds) == [] <==>
              Required(f.title) && |f.title| <= MaxTitle &&
              (f.categoryChoice == NoCategoryChoice || f.categoryChoice in ownCategoryIds) &&
              f.priority in PriorityChoices
    ensures TaskFormErrors(f, ownCategoryIds) == [] ==>
              Strip(f.title) != [] && |Strip(f.title)| <= MaxTitle
  {
  }

  /** The defaults the forms fill in for an absent field (priority 2, colour
      #007bff) pass their own validators. */
  lemma FormDefaultsAccepted(f: TaskInput, ids: set<int>, g: CategoryInput)
    requires f.priority == DefaultPriority && g.color == DefaultColor
    ensures PriorityNotAChoice !in TaskFormErrors(f, ids)
    ensures ColorTooLong !in CategoryFormErrors(g)
  {
    assert PriorityErrors(f.priority) == [];
    assert TitleErrors(f.title) == [] || TitleErrors(f.title) == [TitleRequired] ||
           TitleErrors(f.title) == [TitleTooLong];
    assert CategoryChoiceErrors(f.categoryChoice, ids) == [] ||
           CategoryChoiceErrors(f.categoryChoice, ids) == [CategoryNotAChoice];
  }

  datatype CategoryInput = CategoryInput(name: string, color: string)

  /** CategoryForm: name DataRequired, Length(max=100); color Length(max=7). */
  function CategoryFormErrors(f: CategoryInput): seq<FormError>
  {
    (if !Required(f.name) then [NameRequired]
     else if |f.name| > MaxCategoryName then [NameTooLong]
     else []) +
    (if |f.color| > MaxColor then [ColorTooLong] else [])
  }

  /** A category form is accepted exactly when the name is given and fits and
      the colour fits; the stored, stripped name is then non-empty and fits. */
  lemma CategoryFormAccepted(f: CategoryInput)
    ensures CategoryFormErrors(f) == [] <==>
              Required(f.name) && |f.name| <= MaxCategoryName && |f.color| <= MaxColor
    ensures CategoryFormErrors(f) == [] ==>
              Strip(f.name) != [] && |Strip(f.name)| <= MaxCategoryName
  {
  }
}
