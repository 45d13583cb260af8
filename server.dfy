/**
  The backend's name extractor: `capitalize`, `parseEmail` and the body of
  the `POST /api/process-emails` handler, which trims every entry, keeps
  those in which the pattern `\S+@\S+\.\S+` occurs, and maps each kept entry
  to a record of the email and the name guessed from it. A request whose
  `emails` is not an array of strings makes the handler throw, and the
  `catch` answers with status 500.
 */
module Server {
  import opened JsString

  /* ----------------------------------------------------------- capitalize */

  /** `capitalize`: the first character upper-cased, every later one
      lower-cased, nothing added or dropped. */
  function Capitalize(s: string): (r: string)
    ensures |r| == |s|
    ensures |s| > 0 ==> r[0] == Upper(s[0])
    ensures forall i :: 1 <= i < |s| ==> r[i] == Lower(s[i])
  {
    ToUpper(CharAt(s, 0)) + ToLower(Slice(s, 1))
  }

  /** Capitalizing twice is capitalizing once. */
  lemma CapitalizeIdempotent(s: string)
    ensures Capitalize(Capitalize(s)) == Capitalize(s)
  {
    var r := Capitalize(s);
    var rr := Capitalize(r);
    forall i | 0 <= i < |s| ensures rr[i] == r[i] {
      if i == 0 {
        assert !IsAsciiLower(r[0]);
      } else {
        assert !IsAsciiUpper(r[i]);
      }
    }
  }

  /** Every character of a capitalized string is a case mapping of a
      character of the input. */
  lemma CapitalizeChars(s: string, d: char)
    requires d in Capitalize(s)
    ensures exists k :: 0 <= k < |s| && CaseOf(d, s[k])
  {
    var r := Capitalize(s);
    var k :| 0 <= k < |r| && r[k] == d;
    assert CaseOf(d, s[k]);
  }

  /* ---------------------------------------------------- email acceptance */

  predicate AllNonWs(u: string) {
    forall k :: 0 <= k < |u| ==> !IsWs(u[k])
  }

  /** `m`, taken whole, is a match of `\S+@\S+\.\S+` with the '@' at `p`
      and the '.' at `q`: a non-empty run of non-whitespace, '@', another
      such run, '.', and a third one. */
  predicate WholeMatchAt(m: string, p: int, q: int) {
    0 < p && p + 1 < q && q + 1 < |m| && m[p] == '@' && m[q] == '.' &&
    AllNonWs(m[..p]) && AllNonWs(m[p + 1..q]) && AllNonWs(m[q + 1..])
  }

  predicate WholeMatch(m: string) {
    exists p, q | 0 <= p < |m| && 0 <= q < |m| :: WholeMatchAt(m, p, q)
  }

  /** The substring `s[i..j]` is a whole match. */
  predicate MatchAt(s: string, i: int, j: int) {
    0 <= i <= j <= |s| && WholeMatch(s[i..j])
  }

  /** `/\S+@\S+\.\S+/.test(s)`: the pattern is not anchored, so it suffices
      that some substring of `s` matches. */
  predicate RegexTest(s: string) {
    exists i, j | 0 <= i <= |s| && 0 <= j <= |s| :: MatchAt(s, i, j)
  }

  /** An '@' at `at` with a non-whitespace character before it, then at least
      one non-whitespace character, then a '.' at `dot` with a non-whitespace
      character after it. */
  predicate EmailAt(s: string, at: int, dot: int) {
    0 < at && at + 1 < dot && dot + 1 < |s| &&
    s[at] == '@' && !IsWs(s[at - 1]) && s[dot] == '.' && !IsWs(s[dot + 1]) &&
    AllNonWs(s[at + 1..dot])
  }

  /** The filter's acceptance test in index form */
  predicate IsPlausibleEmail(s: string) {
    exists at, dot | 0 <= at < |s| && 0 <= dot < |s| :: EmailAt(s, at, dot)
  }

  /** A match found at `p`, `q` inside `s[i..j]` is an accepted '@' and '.'
      of `s`. */
  lemma MatchGivesEmailAt(s: string, i: int, j: int, p: int, q: int)
    requires 0 <= i <= j <= |s| && WholeMatchAt(s[i..j], p, q)
    ensures EmailAt(s, i + p, i + q)
  {
    var m := s[i..j];
    assert m[..p][p - 1] == s[i + p - 1];
    assert m[q + 1..][0] == s[i + q + 1];
    var u, v := s[i + p + 1..i + q], m[p + 1..q];
    assert forall k :: 0 <= k < |u| ==> u[k] == v[k];
    assert u == v;
  }

  /** An accepted '@' and '.' of `s` span a whole match. */
  lemma EmailAtGivesMatch(s: string, at: int, dot: int)
    requires EmailAt(s, at, dot)
    ensures MatchAt(s, at - 1, dot + 2)
  {
    var m := s[at - 1..dot + 2];
    var p, q := 1, dot - at + 1;
    var u, v := m[p + 1..q], s[at + 1..dot];
    assert forall k :: 0 <= k < |u| ==> u[k] == v[k];
    assert u == v;
    assert m[q + 1..] == [s[dot + 1]];
    assert m[..p] == [s[at - 1]];
    assert WholeMatchAt(m, p, q);
  }

  /** The index form is exactly what the regular expression tests. */
  lemma PlausibleIffRegexTest(s: string)
    ensures IsPlausibleEmail(s) <==> RegexTest(s)
  {
    if IsPlausibleEmail(s) {
      var at, dot :| EmailAt(s, at, dot);
      EmailAtGivesMatch(s, at, dot);
    }
    if RegexTest(s) {
      var i, j :| 0 <= i <= |s| && 0 <= j <= |s| && MatchAt(s, i, j);
      var m := s[i..j];
      var p, q :| 0 <= p < |m| && 0 <= q < |m| && WholeMatchAt(m, p, q);
      MatchGivesEmailAt(s, i, j, p, q);
    }
  }

  /** Without an '@' nothing is accepted. */
  lemma NoAtRejected(s: string)
    requires '@' !in s
    ensures !IsPlausibleEmail(s)
  {
  }

  /* ---------------------------------------------------------- parseEmail */

  /** The characters `parseEmail` splits the local part on: `/[._-]/` */
  const NameSeparators: set<char> := {'.', '_', '-'}

  /** `email.split('@')[0]` */
  function LocalPart(email: string): string {
    Split(email, {'@'})[0]
  }

  datatype Name = Name(firstName: string, lastName: string)

  /** `parseEmail`: the first piece of the local part, capitalized, is the
      first name; the remaining pieces joined with single spaces, capitalized
      as one string, are the last name. Empty strings are falsy, so an empty
      piece or an empty join gives "". */
  function ParseEmail(email: string): Name {
    var parts := Split(LocalPart(email), NameSeparators);
    var rest := Join(parts[1..], " ");
    Name(if parts[0] != [] then Capitalize(parts[0]) else [],
         if rest != [] then Capitalize(rest) else [])
  }

  /** The local part is the text before the first '@' (all of the email when
      it has none). */
  lemma LocalPartBeforeFirstAt(email: string)
    ensures var lp := LocalPart(email);
      lp <= email && '@' !in lp && (|lp| < |email| ==> email[|lp|] == '@')
  {
    SplitFirst(email, {'@'});
  }

  /** The first name is the capitalized longest prefix of the local part that
      holds no separator; it is "" exactly when the local part is empty or
      starts with a separator. */
  lemma FirstNameIsPrefix(email: string)
    ensures var lp := LocalPart(email);
      var f := ParseEmail(email).firstName;
      |f| <= |lp| && f == Capitalize(lp[..|f|]) &&
      (forall k :: 0 <= k < |f| ==> lp[k] !in NameSeparators) &&
      (|f| < |lp| ==> lp[|f|] in NameSeparators) &&
      (f == [] <==> (lp == [] || lp[0] in NameSeparators))
  {
    var lp := LocalPart(email);
    var parts := Split(lp, NameSeparators);
    var p := parts[0];
    SplitFirst(lp, NameSeparators);
    assert p == lp[..|p|];
  }

  /** The last name is "" when the local part holds no separator; otherwise
      it is the capitalized join, with single spaces, of the pieces after the
      first separator. */
  lemma LastNameIsRest(email: string)
    ensures var lp := LocalPart(email);
      var n := ParseEmail(email);
      var k := |n.firstName|;
      k <= |lp| &&
      ((forall j :: 0 <= j < |lp| ==> lp[j] !in NameSeparators) ==> n.lastName == []) &&
      (k < |lp| ==> n.lastName == Capitalize(Join(Split(lp[k + 1..], NameSeparators), " ")))
  {
    var lp := LocalPart(email);
    var parts := Split(lp, NameSeparators);
    var p := parts[0];
    assert |p| <= |lp| by { SplitFirst(lp, NameSeparators); }
    assert |ParseEmail(email).firstName| == |p|;
    if forall j :: 0 <= j < |lp| ==> lp[j] !in NameSeparators {
      assert parts[1..] == [] by { SplitNoSeparator(lp, NameSeparators); }
    }
    if |p| < |lp| {
      assert parts[1..] == Split(lp[|p| + 1..], NameSeparators) by {
        SplitAfterFirst(lp, NameSeparators);
      }
    }
  }

  /** A character of the joined later pieces is a space or a non-separator
      of the local part. */
  lemma JoinedPiecesChar(lp: string, c: char)
    requires c in Join(Split(lp, NameSeparators)[1..], " ")
    ensures c == ' ' || (c in lp && c !in NameSeparators)
  {
    var parts := Split(lp, NameSeparators);
    JoinChars(parts[1..], " ", c);
    if c != ' ' {
      var i :| 0 <= i < |parts[1..]| && c in parts[1..][i];
      SplitChars(lp, NameSeparators, i + 1, c);
    }
  }

  /** Every character of either name is a space (from the join) or a case
      mapping of a character of the local part that is not a separator. */
  lemma NameChars(email: string, d: char)
    requires d in ParseEmail(email).firstName || d in ParseEmail(email).lastName
    ensures var lp := LocalPart(email);
      d == ' ' || exists k :: 0 <= k < |lp| && lp[k] !in NameSeparators && CaseOf(d, lp[k])
  {
    var lp := LocalPart(email);
    var parts := Split(lp, NameSeparators);
    var rest := Join(parts[1..], " ");
    var piece: string;
    if d in ParseEmail(email).firstName {
      piece := parts[0];
    } else {
      piece := rest;
    }
    CapitalizeChars(piece, d);
    var j :| 0 <= j < |piece| && CaseOf(d, piece[j]);
    var c := piece[j];
    assert c in piece;
    if piece == rest {
      JoinedPiecesChar(lp, c);
    } else {
      SplitChars(lp, NameSeparators, 0, c);
    }
    if c != ' ' {
      var k :| 0 <= k < |lp| && lp[k] == c;
      assert CaseOf(d, lp[k]);
    } else {
      assert d == ' ';
    }
  }

  /** A space, or a case mapping of a character that is neither '@' nor a
      separator, is neither '@' nor a separator. */
  lemma CharFromLocalPart(lp: string, c: char)
    requires '@' !in lp
    requires c == ' ' || exists k :: 0 <= k < |lp| && lp[k] !in NameSeparators && CaseOf(c, lp[k])
    ensures c != '@' && c !in NameSeparators
  {
    if c != ' ' {
      var k :| 0 <= k < |lp| && lp[k] !in NameSeparators && CaseOf(c, lp[k]);
      if c == '@' || c in NameSeparators {
        CaseOfNonLetter(c, lp[k]);
      }
    }
  }

  /** Neither name contains '@', '.', '_' or '-'. */
  lemma NamesHaveNoSeparators(email: string)
    ensures var n := ParseEmail(email);
      forall c :: c in n.firstName + n.lastName ==> c != '@' && c !in NameSeparators
  {
    var n := ParseEmail(email);
    forall c | c in n.firstName + n.lastName
      ensures c != '@' && c !in NameSeparators
    {
      NameChars(email, c);
      LocalPartBeforeFirstAt(email);
      CharFromLocalPart(LocalPart(email), c);
    }
  }

  /** A character of either name that is neither a space nor an ASCII letter
      comes unchanged from the email. */
  lemma NameCharFromEmail(email: string, c: char)
    requires c != ' ' && !IsAsciiLower(c) && !IsAsciiUpper(c)
    ensures c in ParseEmail(email).firstName || c in ParseEmail(email).lastName ==> c in email
  {
    if c in ParseEmail(email).firstName || c in ParseEmail(email).lastName {
      NameChars(email, c);
      var lp := LocalPart(email);
      var k :| 0 <= k < |lp| && lp[k] !in NameSeparators && CaseOf(c, lp[k]);
      CaseOfNonLetter(c, lp[k]);
      LocalPartBeforeFirstAt(email);
      assert email[k] == lp[k];
    }
  }

  /* ------------------------------------------------------------ handler */

  datatype Option<T> = None | Some(value: T)

  /** An element of the request's `emails` value */
  datatype JsValue = Str(str: string) | NonString

  /** The request's `emails` value: an array of elements, or anything else
      (missing, an object, a string, a number) */
  datatype Emails = JsArray(elements: seq<JsValue>) | NotArray

  datatype EmailRecord = EmailRecord(email: string, firstName: string, lastName: string)

  /** `res.json({ results })`, or `res.status(500).json({ error })` */
  datatype Response = Ok(results: seq<EmailRecord>) | Err500(error: string)

  const ErrorMessage: string := "Error processing emails"

  /** `.map(email => email.trim())`, which throws on an element that is not a
      string */
  function TrimEntries(xs: seq<JsValue>): (r: Option<seq<string>>)
    ensures r.Some? <==> forall i :: 0 <= i < |xs| ==> xs[i].Str?
    ensures r.Some? ==> |r.value| == |xs|
  {
    if xs == [] then Some([])
    else if xs[0].NonString? then None
    else
      var rest := TrimEntries(xs[1..]);
      if rest.None? then None else Some([Trim(xs[0].str)] + rest.value)
  }

  /** `.filter(email => /\S+@\S+\.\S+/.test(email))` */
  function KeepEmails(ss: seq<string>): (r: seq<string>)
    ensures forall i :: 0 <= i < |r| ==> IsPlausibleEmail(r[i]) && r[i] in ss
  {
    if ss == [] then []
    else (if IsPlausibleEmail(ss[0]) then [ss[0]] else []) + KeepEmails(ss[1..])
  }

  /** An entry survives the filter exactly when it is in the batch and
      accepted. */
  lemma {:induction false} KeepEmailsMembers(ss: seq<string>, t: string)
    ensures t in KeepEmails(ss) <==> t in ss && IsPlausibleEmail(t)
    decreases |ss|
  {
    if ss != [] {
      KeepEmailsMembers(ss[1..], t);
      assert ss == [ss[0]] + ss[1..];
    }
  }

  /** `{ email, ...parseEmail(email) }` */
  function ToRecord(email: string): EmailRecord {
    var n := ParseEmail(email);
    EmailRecord(email, n.firstName, n.lastName)
  }

  /** `emails.map(email => ({ email, ...parseEmail(email) }))`: the records
      carry the entries, in order, each with the name parsed from it. */
  function ToRecords(ss: seq<string>): (r: seq<EmailRecord>)
    ensures ResultEmails(r) == ss
    ensures forall i :: 0 <= i < |r| ==> Name(r[i].firstName, r[i].lastName) == ParseEmail(r[i].email)
  {
    seq(|ss|, i requires 0 <= i < |ss| => ToRecord(ss[i]))
  }

  /** Mapping a concatenation concatenates the mapped parts. */
  lemma ToRecordsConcat(a: seq<string>, b: seq<string>)
    ensures ToRecords(a + b) == ToRecords(a) + ToRecords(b)
  {
  }

  /** The body of the `POST /api/process-emails` handler */
  function ProcessEmails(emails: Emails): Response {
    match emails
    case NotArray => Err500(ErrorMessage)
    case JsArray(xs) =>
      match TrimEntries(xs)
      case None => Err500(ErrorMessage)
      case Some(trimmed) => Ok(ToRecords(KeepEmails(trimmed)))
  }

  /** The handler fails exactly when `emails` is not an array or holds a
      non-string, and then answers with the fixed message. */
  lemma ProcessEmailsFails(emails: Emails)
    ensures ProcessEmails(emails).Err500? <==>
      (emails.NotArray? || exists i :: 0 <= i < |emails.elements| && emails.elements[i].NonString?)
    ensures ProcessEmails(emails).Err500? ==> ProcessEmails(emails).error == "Error processing emails"
  {
  }

  lemma {:induction false} KeepEmailsConcat(a: seq<string>, b: seq<string>)
    ensures KeepEmails(a + b) == KeepEmails(a) + KeepEmails(b)
    decreases |a|
  {
    if a != [] {
      assert (a + b)[1..] == a[1..] + b;
      KeepEmailsConcat(a[1..], b);
    } else {
      assert a + b == b;
    }
  }

  /** Each entry is trimmed in place. */
  lemma {:induction false} TrimEntriesValues(xs: seq<JsValue>, i: nat)
    requires TrimEntries(xs).Some? && i < |xs|
    ensures TrimEntries(xs).value[i] == Trim(xs[i].str)
    decreases |xs|
  {
    if i > 0 {
      TrimEntriesValues(xs[1..], i - 1);
    }
  }

  lemma TrimEntriesConcat(xs: seq<JsValue>, ys: seq<JsValue>)
    requires TrimEntries(xs).Some? && TrimEntries(ys).Some?
    ensures TrimEntries(xs + ys) == Some(TrimEntries(xs).value + TrimEntries(ys).value)
  {
    var zs := xs + ys;
    assert forall i :: 0 <= i < |zs| ==> zs[i].Str? by {
      forall i | 0 <= i < |zs| ensures zs[i].Str? {
        if i < |xs| { assert zs[i] == xs[i]; } else { assert zs[i] == ys[i - |xs|]; }
      }
    }
    var a, b, c := TrimEntries(xs).value, TrimEntries(ys).value, TrimEntries(zs).value;
    forall i | 0 <= i < |c| ensures c[i] == (a + b)[i] {
      TrimEntriesValues(zs, i);
      if i < |xs| {
        TrimEntriesValues(xs, i);
        assert zs[i] == xs[i];
      } else {
        TrimEntriesValues(ys, i - |xs|);
        assert zs[i] == ys[i - |xs|];
      }
    }
    assert c == a + b;
  }

  lemma TrimEntriesSingle(s: string)
    ensures TrimEntries([Str(s)]) == Some([Trim(s)])
  {
    var xs := [Str(s)];
    assert TrimEntries(xs) == Some([Trim(s)] + []);
    assert [Trim(s)] + [] == [Trim(s)];
  }

  /** The results of two batches sent as one are the results of the first
      followed by those of the second: the handler keeps input order. */
  lemma ProcessEmailsConcat(xs: seq<JsValue>, ys: seq<JsValue>)
    requires ProcessEmails(JsArray(xs)).Ok? && ProcessEmails(JsArray(ys)).Ok?
    ensures ProcessEmails(JsArray(xs + ys)).Ok?
    ensures ProcessEmails(JsArray(xs + ys)).results ==
      ProcessEmails(JsArray(xs)).results + ProcessEmails(JsArray(ys)).results
  {
    var tx, ty := TrimEntries(xs).value, TrimEntries(ys).value;
    TrimEntriesConcat(xs, ys);
    KeepEmailsConcat(tx, ty);
    ToRecordsConcat(KeepEmails(tx), KeepEmails(ty));
  }

  /** A one-element batch gives one record, of the trimmed entry, when the
      entry is accepted, and none otherwise. */
  lemma ProcessEmailsSingle(s: string)
    ensures ProcessEmails(JsArray([Str(s)])) ==
      Ok(if IsPlausibleEmail(Trim(s)) then [EmailRecord(Trim(s), ParseEmail(Trim(s)).firstName, ParseEmail(Trim(s)).lastName)] else [])
  {
    var t := Trim(s);
    TrimEntriesSingle(s);
    assert ProcessEmails(JsArray([Str(s)])) == Ok(ToRecords(KeepEmails([t])));
    assert [t][1..] == [];
    if IsPlausibleEmail(t) {
      assert KeepEmails([t]) == [t];
      assert ToRecords([t]) == [ToRecord(t)];
    } else {
      assert KeepEmails([t]) == [];
    }
  }

  /** Every record holds an accepted, trimmed entry of the batch and the name
      parsed from it. */
  lemma ProcessEmailsRecords(xs: seq<JsValue>)
    requires ProcessEmails(JsArray(xs)).Ok?
    ensures var rs := ProcessEmails(JsArray(xs)).results;
      forall i :: 0 <= i < |rs| ==>
        IsPlausibleEmail(rs[i].email) && Trim(rs[i].email) == rs[i].email &&
        Name(rs[i].firstName, rs[i].lastName) == ParseEmail(rs[i].email) &&
        exists j :: 0 <= j < |xs| && rs[i].email == Trim(xs[j].str)
  {
    var ts := TrimEntries(xs).value;
    var rs := ProcessEmails(JsArray(xs)).results;
    forall i | 0 <= i < |rs|
      ensures IsPlausibleEmail(rs[i].email) && Trim(rs[i].email) == rs[i].email &&
        Name(rs[i].firstName, rs[i].lastName) == ParseEmail(rs[i].email) &&
        exists j :: 0 <= j < |xs| && rs[i].email == Trim(xs[j].str)
    {
      var e := KeepEmails(ts)[i];
      assert rs[i].email == e;
      var j :| 0 <= j < |ts| && ts[j] == e;
      TrimEntriesValues(xs, j);
      TrimIdempotent(xs[j].str);
    }
  }

  /** The request body `{ emails: ss }` for an array of strings */
  function StringArray(ss: seq<string>): Emails {
    JsArray(seq(|ss|, i requires 0 <= i < |ss| => Str(ss[i])))
  }

  lemma {:induction false} KeepEmailsAllAccepted(ss: seq<string>)
    requires forall i :: 0 <= i < |ss| ==> IsPlausibleEmail(ss[i])
    ensures KeepEmails(ss) == ss
    decreases |ss|
  {
    if ss != [] {
      KeepEmailsAllAccepted(ss[1..]);
      assert [ss[0]] + ss[1..] == ss;
    }
  }

  /** Trimming an array of already-trimmed strings gives the strings back. */
  lemma TrimEntriesTrimmed(ss: seq<string>)
    requires forall i :: 0 <= i < |ss| ==> Trim(ss[i]) == ss[i]
    ensures TrimEntries(StringArray(ss).elements) == Some(ss)
  {
    var xs := StringArray(ss).elements;
    assert forall i :: 0 <= i < |xs| ==> xs[i] == Str(ss[i]);
    var t := TrimEntries(xs).value;
    forall i | 0 <= i < |ss| ensures t[i] == ss[i] {
      TrimEntriesValues(xs, i);
    }
    assert t == ss;
  }

  /** A batch of strings that are already trimmed never fails, and its
      results are the records of its accepted entries, in order. */
  lemma ProcessTrimmedStrings(ss: seq<string>)
    requires forall i :: 0 <= i < |ss| ==> Trim(ss[i]) == ss[i]
    ensures ProcessEmails(StringArray(ss)) == Ok(ToRecords(KeepEmails(ss)))
  {
    TrimEntriesTrimmed(ss);
  }

  /** The emails of some results */
  function ResultEmails(rs: seq<EmailRecord>): seq<string> {
    seq(|rs|, i requires 0 <= i < |rs| => rs[i].email)
  }

  /** Submitting the emails of a batch's results again yields the same
      results. */
  lemma ResubmitIdentical(xs: seq<JsValue>)
    requires ProcessEmails(JsArray(xs)).Ok?
    ensures var rs := ProcessEmails(JsArray(xs)).results;
      ProcessEmails(StringArray(ResultEmails(rs))) == Ok(rs)
  {
    var rs := ProcessEmails(JsArray(xs)).results;
    ProcessEmailsRecords(xs);
    var emails := ResultEmails(rs);
    ProcessTrimmedStrings(emails);
    KeepEmailsAllAccepted(emails);
    assert ToRecords(emails) == rs;
  }

  /* ------------------------------------------------------------ examples */

  /** Splitting a string that has one separator, after a piece without any */
  lemma SplitAtOnly(a: string, c: char, b: string, seps: set<char>)
    requires c in seps
    requires forall k :: 0 <= k < |a| ==> a[k] !in seps
    requires forall k :: 0 <= k < |b| ==> b[k] !in seps
    ensures Split(a + [c] + b, seps) == [a, b]
  {
    SplitConcat(a, c, b, seps);
    SplitNoSeparator(a, seps);
    SplitNoSeparator(b, seps);
  }

  /** The local part of `a@b` is `a` when `a` has no '@'. */
  lemma LocalPartOf(a: string, b: string)
    requires '@' !in a
    ensures LocalPart(a + ['@'] + b) == a
  {
    SplitConcat(a, '@', b, {'@'});
    SplitNoSeparator(a, {'@'});
  }

  /** ParseEmail computed from the pieces of a given local part. */
  lemma ParseEmailFrom(a: string, b: string, first: string, more: seq<string>, last: string)
    requires '@' !in a
    requires Split(a, NameSeparators) == [first] + more
    requires Join(more, " ") == last
    ensures ParseEmail(a + ['@'] + b)
      == Name(if first != [] then Capitalize(first) else [],
              if last != [] then Capitalize(last) else [])
  {
    LocalPartOf(a, b);
    assert ([first] + more)[1..] == more;
  }

  lemma CapitalizeJohnDoe()
    ensures Capitalize("john") == "John" && Capitalize("doe") == "Doe"
  {
  }

  lemma CapitalizeJaneMSmith()
    ensures Capitalize("JANE") == "Jane" && Capitalize("M SMITH") == "M smith"
  {
  }

  /** The names of `first.last@domain` for separator-free `first` and `last`. */
  lemma ParseEmailFirstLast(first: string, last: string, domain: string)
    requires forall k :: 0 <= k < |first| ==> first[k] !in NameSeparators && first[k] != '@'
    requires forall k :: 0 <= k < |last| ==> last[k] !in NameSeparators && last[k] != '@'
    ensures ParseEmail(first + ['.'] + last + ['@'] + domain)
      == Name(if first != [] then Capitalize(first) else [],
              if last != [] then Capitalize(last) else [])
  {
    var a := first + ['.'] + last;
    assert '@' !in a by {
      forall k | 0 <= k < |a| ensures a[k] != '@' {
        if k > |first| { assert a[k] == last[k - |first| - 1]; }
      }
    }
    SplitAtOnly(first, '.', last, NameSeparators);
    assert Join([last], " ") == last;
    ParseEmailFrom(a, domain, first, [last], last);
  }

  lemma JohnDoeLiteral()
    ensures "john.doe@example.com" == "john" + ['.'] + "doe" + ['@'] + "example.com"
  {
  }

  /** "john.doe@example.com" gives the names "John" and "Doe". */
  lemma JohnDoe()
    ensures ParseEmail("john.doe@example.com") == Name("John", "Doe")
  {
    ParseEmailFirstLast("john", "doe", "example.com");
    CapitalizeJohnDoe();
    JohnDoeLiteral();
  }

  /** The names of `first_middle_last@domain`: the middle and last pieces
      are joined by a space before being capitalized together. */
  lemma ParseEmailThreePieces(first: string, middle: string, last: string, domain: string)
    requires forall k :: 0 <= k < |first| ==> first[k] !in NameSeparators && first[k] != '@'
    requires forall k :: 0 <= k < |middle| ==> middle[k] !in NameSeparators && middle[k] != '@'
    requires forall k :: 0 <= k < |last| ==> last[k] !in NameSeparators && last[k] != '@'
    ensures ParseEmail(first + ['_'] + middle + ['_'] + last + ['@'] + domain)
      == Name(if first != [] then Capitalize(first) else [],
              Capitalize(middle + " " + last))
  {
    var b := middle + ['_'] + last;
    var a := first + ['_'] + b;
    assert a == first + ['_'] + middle + ['_'] + last;
    assert '@' !in a by {
      forall k | 0 <= k < |a| ensures a[k] != '@' {
        if k > |first| {
          assert a[k] == b[k - |first| - 1];
          if k - |first| - 1 > |middle| { assert b[k - |first| - 1] == last[k - |first| - 1 - |middle| - 1]; }
        }
      }
    }
    SplitConcat(first, '_', b, NameSeparators);
    SplitNoSeparator(first, NameSeparators);
    SplitAtOnly(middle, '_', last, NameSeparators);
    assert Join([middle, last], " ") == middle + " " + last;
    ParseEmailFrom(a, domain, first, [middle, last], middle + " " + last);
  }

  lemma JaneMSmithLiteral()
    ensures "JANE_M_SMITH@x.co" == "JANE" + ['_'] + "M" + ['_'] + "SMITH" + ['@'] + "x.co"
    ensures "M SMITH" == "M" + " " + "SMITH"
  {
  }

  /** "JANE_M_SMITH@x.co" gives "Jane" and "M smith": the last name is
      capitalized as one string, so only its first letter is upper case. */
  lemma JaneMSmith()
    ensures ParseEmail("JANE_M_SMITH@x.co") == Name("Jane", "M smith")
  {
    ParseEmailThreePieces("JANE", "M", "SMITH", "x.co");
    CapitalizeJaneMSmith();
    JaneMSmithLiteral();
  }

  /** An entry without '@' yields no record. */
  lemma NoAtDropped(s: string)
    requires '@' !in s
    ensures ProcessEmails(JsArray([Str(s)])) == Ok([])
  {
    ProcessEmailsSingle(s);
    if '@' in Trim(s) {
      TrimChars(s, '@');
    }
    NoAtRejected(Trim(s));
  }

  /** "not-an-email" has no '@' and is dropped from the results. */
  lemma NotAnEmailDropped()
    ensures ProcessEmails(JsArray([Str("not-an-email")])) == Ok([])
  {
    NoAtDropped("not-an-email");
  }

  /** The pattern is not anchored: "x y@a.b" is accepted, and its local part
      keeps the space. */
  lemma UnanchoredMatch()
    ensures IsPlausibleEmail("x y@a.b") && LocalPart("x y@a.b") == "x y"
  {
    var s := "x y@a.b";
    assert s[4..5] == "a";
    assert EmailAt(s, 3, 5);
    assert s == "x y" + ['@'] + "a.b";
    LocalPartOf("x y", "a.b");
  }
}
