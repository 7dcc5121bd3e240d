/**
 Validation of the contact form: each field is read (a missing field reads
 as empty), trimmed, checked for emptiness, and the e-mail address is
 matched against `^[^\s@]+@[^\s@]+\.[^\s@]+$`.
 */
module ContactForm {

  import opened Wrappers

  /**
   The characters JavaScript's `trim()` removes and its regular-expression
   class `\s` matches: the ECMAScript WhiteSpace and LineTerminator code
   points.
   */
  const Whitespace: set<char> := {
    '\t', '\n', '\U{000B}', '\U{000C}', '\r', ' ', '\U{00A0}', '\U{1680}',
    '\U{2000}', '\U{2001}', '\U{2002}', '\U{2003}', '\U{2004}', '\U{2005}',
    '\U{2006}', '\U{2007}', '\U{2008}', '\U{2009}', '\U{200A}',
    '\U{2028}', '\U{2029}', '\U{202F}', '\U{205F}', '\U{3000}', '\U{FEFF}'
  }

  predicate IsSpace(c: char) {
    c in Whitespace
  }

  /** Every character of `s` in `[lo, hi)` is whitespace. */
  predicate SpaceBetween(s: string, lo: int, hi: int)
    requires 0 <= lo && hi <= |s|
  {
    forall k :: lo <= k < hi ==> IsSpace(s[k])
  }

  predicate AllSpace(s: string) {
    SpaceBetween(s, 0, |s|)
  }

  /** The first index at or after `i` that does not hold whitespace (or `|s|`). */
  function SkipSpace(s: string, i: nat): (r: nat)
    requires i <= |s|
    ensures i <= r <= |s|
    ensures SpaceBetween(s, i, r)
    ensures r < |s| ==> !IsSpace(s[r])
    decreases |s| - i
  {
    if i < |s| && IsSpace(s[i]) then SkipSpace(s, i + 1) else i
  }

  /** The smallest end `r >= lo` such that `s[r..j]` is all whitespace. */
  function SkipSpaceBack(s: string, lo: nat, j: nat): (r: nat)
    requires lo <= j <= |s|
    ensures lo <= r <= j
    ensures SpaceBetween(s, r, j)
    ensures r > lo ==> !IsSpace(s[r - 1])
    decreases j
  {
    if j > lo && IsSpace(s[j - 1]) then SkipSpaceBack(s, lo, j - 1) else j
  }

  /** Where the trimmed text starts and ends in `s`. */
  function TrimStart(s: string): nat {
    SkipSpace(s, 0)
  }

  function TrimEnd(s: string): nat {
    SkipSpaceBack(s, TrimStart(s), |s|)
  }

  /**
   `String.prototype.trim`: the slice of `s` left once leading and trailing
   whitespace are dropped; it neither starts nor ends with whitespace.
   */
  function Trim(s: string): (t: string)
    ensures |t| <= |s|
    ensures t != [] ==> !IsSpace(t[0]) && !IsSpace(t[|t| - 1])
  {
    s[TrimStart(s)..TrimEnd(s)]
  }

  /** Everything `Trim` drops is whitespace: `s` is whitespace, `Trim(s)`, whitespace. */
  lemma TrimDropsOnlySpace(s: string)
    ensures TrimStart(s) <= TrimEnd(s) <= |s|
    ensures s == s[..TrimStart(s)] + Trim(s) + s[TrimEnd(s)..]
    ensures AllSpace(s[..TrimStart(s)]) && AllSpace(s[TrimEnd(s)..])
  {
    var i, j := TrimStart(s), TrimEnd(s);
    assert s == s[..i] + s[i..j] + s[j..];
    assert forall k :: 0 <= k < i ==> s[..i][k] == s[k];
    assert forall k :: 0 <= k < |s| - j ==> s[j..][k] == s[j + k];
  }

  /** A string trims to nothing exactly when it is all whitespace. */
  lemma TrimEmptyIffAllSpace(s: string)
    ensures Trim(s) == [] <==> AllSpace(s)
  {
    var i, j := TrimStart(s), TrimEnd(s);
    if Trim(s) == [] {
      assert i == j;
      assert SpaceBetween(s, 0, i) && SpaceBetween(s, i, |s|);
    } else {
      assert s[i] == Trim(s)[0];
    }
  }

  /** Trimming twice is trimming once. */
  lemma TrimIdempotent(s: string)
    ensures Trim(Trim(s)) == Trim(s)
  {
    var t := Trim(s);
    if t != [] {
      assert TrimStart(t) == 0;
      assert TrimEnd(t) == |t|;
      assert t[0..|t|] == t;
    } else {
      assert TrimStart(t) == 0 && TrimEnd(t) == 0;
    }
  }

  /** `[^\s@]`: a character the pattern's runs may contain. */
  predicate Plain(c: char) {
    !IsSpace(c) && c != '@'
  }

  /** Every character of `s` in `[lo, hi)` is `Plain`. */
  predicate PlainBetween(s: string, lo: int, hi: int)
    requires 0 <= lo && hi <= |s|
  {
    forall k :: lo <= k < hi ==> Plain(s[k])
  }

  /**
   `^[^\s@]+@[^\s@]+\.[^\s@]+$`: a non-empty run, `@`, a non-empty run, a
   dot, and a non-empty run, none of the runs holding whitespace or `@`.
   */
  predicate MatchesEmailPattern(s: string) {
    exists i, j :: 0 < i && i + 1 < j < |s| - 1 && s[i] == '@' && s[j] == '.'
                   && PlainBetween(s, 0, i) && PlainBetween(s, i + 1, j) && PlainBetween(s, j + 1, |s|)
  }

  /**
   The same acceptance stated as a checklist: no whitespace, exactly one
   `@` with something before it, and a dot after it with at least one
   character on each side.
   */
  predicate WellFormedEmail(s: string) {
    && (forall k :: 0 <= k < |s| ==> !IsSpace(s[k]))
    && exists i :: 0 < i < |s| && s[i] == '@'
                   && (forall k :: 0 <= k < |s| && k != i ==> s[k] != '@')
                   && (exists j :: i + 1 < j < |s| - 1 && s[j] == '.')
  }

  /** The pattern and the checklist accept the same addresses. */
  lemma EmailPatternIsWellFormed(s: string)
    ensures MatchesEmailPattern(s) <==> WellFormedEmail(s)
  {
    if MatchesEmailPattern(s) {
      var i, j :| 0 < i && i + 1 < j < |s| - 1 && s[i] == '@' && s[j] == '.'
                  && PlainBetween(s, 0, i) && PlainBetween(s, i + 1, j) && PlainBetween(s, j + 1, |s|);
      assert forall k :: 0 <= k < |s| && k != i && k != j ==> Plain(s[k]);
      assert i + 1 < j < |s| - 1 && s[j] == '.';
    }
    if WellFormedEmail(s) {
      var i :| 0 < i < |s| && s[i] == '@'
               && (forall k :: 0 <= k < |s| && k != i ==> s[k] != '@')
               && (exists j :: i + 1 < j < |s| - 1 && s[j] == '.');
      var j :| i + 1 < j < |s| - 1 && s[j] == '.';
      assert PlainBetween(s, 0, i) && PlainBetween(s, i + 1, j) && PlainBetween(s, j + 1, |s|);
    }
  }

  const FillAllFields: string := "Please fill in all fields."
  const EnterValidEmail: string := "Please enter a valid email."

  /** A rejection with the status text shown, or the trimmed fields that go into the mail link. */
  datatype Submission = Rejected(status: string) | Accepted(name: string, email: string, message: string)

  /** `(field?.value || '')`: a missing field reads as the empty string. */
  function FieldText(field: Option<string>): string {
    match field
    case None => ""
    case Some(v) => v
  }

  /** The submit handler's decision. */
  function Submit(name: Option<string>, email: Option<string>, message: Option<string>): (r: Submission)
    ensures r == Rejected(FillAllFields) <==>
              AllSpace(FieldText(name)) || AllSpace(FieldText(email)) || AllSpace(FieldText(message))
    ensures r == Rejected(EnterValidEmail) <==>
              !AllSpace(FieldText(name)) && !AllSpace(FieldText(email)) && !AllSpace(FieldText(message))
              && !WellFormedEmail(Trim(FieldText(email)))
    ensures r.Accepted? ==> r == Accepted(Trim(FieldText(name)), Trim(FieldText(email)), Trim(FieldText(message)))
    ensures r.Accepted? || r == Rejected(FillAllFields) || r == Rejected(EnterValidEmail)
  {
    var n := Trim(FieldText(name));
    var e := Trim(FieldText(email));
    var m := Trim(FieldText(message));
    TrimEmptyIffAllSpace(FieldText(name));
    TrimEmptyIffAllSpace(FieldText(email));
    TrimEmptyIffAllSpace(FieldText(message));
    EmailPatternIsWellFormed(e);
    if n == [] || e == [] || m == [] then Rejected(FillAllFields)
    else if !MatchesEmailPattern(e) then Rejected(EnterValidEmail)
    else Accepted(n, e, m)
  }

  /** An accepted address holds exactly one `@` and no whitespace, and the fields are already trimmed. */
  lemma AcceptedIsClean(name: Option<string>, email: Option<string>, message: Option<string>)
    requires Submit(name, email, message).Accepted?
    ensures var r := Submit(name, email, message);
            WellFormedEmail(r.email) && r.name != [] && r.message != []
            && Trim(r.name) == r.name && Trim(r.email) == r.email && Trim(r.message) == r.message
  {
    var r := Submit(name, email, message);
    TrimEmptyIffAllSpace(FieldText(name));
    TrimEmptyIffAllSpace(FieldText(message));
    TrimIdempotent(FieldText(name));
    TrimIdempotent(FieldText(email));
    TrimIdempotent(FieldText(message));
  }
}
