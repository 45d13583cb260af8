/** The front end's pure steps: turning the textarea into the list of emails
    it posts, and turning one column of the results into CSV text. */
module App {
  import opened JsString
  import opened Server

  /* ----------------------------------------------------------- tokenizer */

  /** The characters of the class in `/[\n,]+/` */
  const InputSeparators: set<char> := {'\n', ','}

  /** `.map(e => e.trim())` */
  function TrimEach(ps: seq<string>): seq<string> {
    seq(|ps|, i requires 0 <= i < |ps| => Trim(ps[i]))
  }

  /** `.map(e => e.trim()).filter(e => e)` */
  function Clean(ps: seq<string>): seq<string> {
    NonEmpty(TrimEach(ps))
  }

  /** `input.split(/[\n,]+/).map(e => e.trim()).filter(e => e)` */
  function Tokenize(input: string): seq<string> {
    Clean(SplitOnRuns(input, InputSeparators))
  }

  /** What a token looks like: non-empty, no surrounding whitespace, no
      separator. */
  predicate IsToken(t: string) {
    t != [] && !IsWs(t[0]) && !IsWs(t[|t| - 1]) && ',' !in t && '\n' !in t
  }

  /** A trimmed piece has no separator if the piece had none. */
  lemma TrimmedPieceHasNoSeparator(p: string)
    requires forall k :: 0 <= k < |p| ==> p[k] !in InputSeparators
    ensures ',' !in Trim(p) && '\n' !in Trim(p)
  {
    forall c | c in Trim(p) ensures c !in InputSeparators {
      TrimChars(p, c);
    }
  }

  /** Every token is non-empty, has no leading or trailing whitespace and
      holds no ',' or '\n'. */
  lemma TokensAreClean(input: string)
    ensures forall i :: 0 <= i < |Tokenize(input)| ==> IsToken(Tokenize(input)[i])
  {
    var pieces := SplitOnRuns(input, InputSeparators);
    var trimmed := TrimEach(pieces);
    var ts := Tokenize(input);
    forall i | 0 <= i < |ts| ensures IsToken(ts[i]) {
      assert ts[i] in ts;
      var j :| 0 <= j < |trimmed| && trimmed[j] == ts[i];
      TrimmedPieceHasNoSeparator(pieces[j]);
    }
  }

  /** Trimming each piece of a concatenation concatenates the trimmed parts. */
  lemma TrimEachConcat(a: seq<string>, b: seq<string>)
    ensures TrimEach(a + b) == TrimEach(a) + TrimEach(b)
  {
  }

  lemma CleanConcat(a: seq<string>, b: seq<string>)
    ensures Clean(a + b) == Clean(a) + Clean(b)
  {
    TrimEachConcat(a, b);
    NonEmptyConcat(TrimEach(a), TrimEach(b));
  }

  /** Dropping empty pieces before trimming changes nothing. */
  lemma {:induction false} CleanNonEmpty(ps: seq<string>)
    ensures Clean(NonEmpty(ps)) == Clean(ps)
  {
    if ps != [] {
      CleanNonEmpty(ps[1..]);
      assert ps == [ps[0]] + ps[1..];
      CleanConcat([ps[0]], ps[1..]);
      if ps[0] != [] {
        CleanConcat([ps[0]], NonEmpty(ps[1..]));
      } else {
        assert Clean([ps[0]]) == [];
      }
    }
  }

  /** The tokens are those of a split on every single separator: runs of
      separators only add empty pieces, which are dropped anyway. */
  lemma TokenizeBySingleSplit(input: string)
    ensures Tokenize(input) == Clean(Split(input, InputSeparators))
  {
    CleanNonEmpty(SplitOnRuns(input, InputSeparators));
    SplitOnRunsNonEmpty(input, InputSeparators);
    CleanNonEmpty(Split(input, InputSeparators));
  }

  /** Tokens keep input order: the tokens of two texts joined by a separator
      are those of the first followed by those of the second. */
  lemma TokenizeConcat(a: string, c: char, b: string)
    requires c in InputSeparators
    ensures Tokenize(a + [c] + b) == Tokenize(a) + Tokenize(b)
  {
    TokenizeBySingleSplit(a + [c] + b);
    SplitConcat(a, c, b, InputSeparators);
    CleanConcat(Split(a, InputSeparators), Split(b, InputSeparators));
    TokenizeBySingleSplit(a);
    TokenizeBySingleSplit(b);
  }

  lemma CleanSingle(s: string)
    ensures Clean([s]) == (if Trim(s) == [] then [] else [Trim(s)])
  {
    var t := Trim(s);
    assert TrimEach([s]) == [t];
    assert [t][1..] == [];
  }

  /** An input without separators gives no token when it is blank and its
      trimmed self otherwise. */
  lemma TokenizeNoSeparator(s: string)
    requires forall k :: 0 <= k < |s| ==> s[k] !in InputSeparators
    ensures Tokenize(s) == (if Trim(s) == [] then [] else [Trim(s)])
  {
    TokenizeBySingleSplit(s);
    SplitNoSeparator(s, InputSeparators);
    CleanSingle(s);
  }

  /** Valid tokens pass through trimming and the emptiness filter. */
  lemma CleanTokens(ts: seq<string>)
    requires forall i :: 0 <= i < |ts| ==> IsToken(ts[i])
    ensures Clean(ts) == ts
  {
    forall i | 0 <= i < |ts| ensures Trim(ts[i]) == ts[i] {
      TrimIdentity(ts[i]);
    }
    assert TrimEach(ts) == ts;
    NonEmptyKeepsAll(ts);
  }

  /** Joining valid tokens with ',' or '\n' and tokenizing gives them back. */
  lemma TokenizeJoin(ts: seq<string>, c: char)
    requires c in InputSeparators
    requires forall i :: 0 <= i < |ts| ==> IsToken(ts[i])
    ensures Tokenize(Join(ts, [c])) == ts
  {
    if ts == [] {
      TokenizeNoSeparator([]);
    } else {
      forall i, k | 0 <= i < |ts| && 0 <= k < |ts[i]| ensures ts[i][k] !in InputSeparators {
        assert ts[i][k] in ts[i];
      }
      TokenizeBySingleSplit(Join(ts, [c]));
      SplitJoin(ts, c, InputSeparators);
      CleanTokens(ts);
    }
  }

  /** Re-tokenizing the tokens, joined by a separator, changes nothing. */
  lemma TokenizeIdempotent(input: string, c: char)
    requires c in InputSeparators
    ensures Tokenize(Join(Tokenize(input), [c])) == Tokenize(input)
  {
    TokensAreClean(input);
    TokenizeJoin(Tokenize(input), c);
  }

  /* ----------------------------------------------------------------- CSV */

  /** `results.map(r => r.firstName)` */
  function FirstNameColumn(rs: seq<EmailRecord>): seq<string> {
    seq(|rs|, i requires 0 <= i < |rs| => rs[i].firstName)
  }

  /** `results.map(r => r.lastName)` */
  function LastNameColumn(rs: seq<EmailRecord>): seq<string> {
    seq(|rs|, i requires 0 <= i < |rs| => rs[i].lastName)
  }

  /** The columns of the records of some entries hold the names parsed from
      those entries, one per entry, in order. */
  lemma ColumnsOfRecords(ss: seq<string>)
    ensures |FirstNameColumn(ToRecords(ss))| == |ss| && |LastNameColumn(ToRecords(ss))| == |ss|
    ensures forall i :: 0 <= i < |ss| ==>
      FirstNameColumn(ToRecords(ss))[i] == ParseEmail(ss[i]).firstName &&
      LastNameColumn(ToRecords(ss))[i] == ParseEmail(ss[i]).lastName
  {
  }

  /** `data.join('\n')` */
  function CsvContent(data: seq<string>): string {
    Join(data, "\n")
  }

  /** Non-empty data whose items hold no '\n' is read back line by line. */
  lemma CsvLines(data: seq<string>)
    requires |data| >= 1
    requires forall i :: 0 <= i < |data| ==> '\n' !in data[i]
    ensures Split(CsvContent(data), {'\n'}) == data
  {
    forall i, k | 0 <= i < |data| && 0 <= k < |data[i]| ensures data[i][k] !in {'\n'} {
      assert data[i][k] in data[i];
    }
    SplitJoin(data, '\n', {'\n'});
  }

  /* ---------------------------------------------------------- end to end */

  /** Posting the tokens of any input never fails, and the results are the
      records of the accepted tokens, in input order. */
  lemma SubmitTokens(input: string)
    ensures ProcessEmails(StringArray(Tokenize(input))) ==
      Ok(ToRecords(KeepEmails(Tokenize(input))))
  {
    var ts := Tokenize(input);
    TokensAreClean(input);
    forall i | 0 <= i < |ts| ensures Trim(ts[i]) == ts[i] {
      TrimIdentity(ts[i]);
    }
    ProcessTrimmedStrings(ts);
  }

  /** Neither name of a record made from a token holds '\n'. */
  lemma NamesHaveNoNewline(input: string)
    ensures var rs := ToRecords(KeepEmails(Tokenize(input)));
      forall i :: 0 <= i < |rs| ==> '\n' !in rs[i].firstName && '\n' !in rs[i].lastName
  {
    var ts := Tokenize(input);
    var kept := KeepEmails(ts);
    var rs := ToRecords(kept);
    TokensAreClean(input);
    forall i | 0 <= i < |rs| ensures '\n' !in rs[i].firstName && '\n' !in rs[i].lastName {
      assert kept[i] in ts;
      NameCharFromEmail(kept[i], '\n');
    }
  }

  /** For any input with at least one result, each downloaded CSV has
      exactly one line per result, in result order. */
  lemma CsvOneLinePerResult(input: string)
    ensures ProcessEmails(StringArray(Tokenize(input))).Ok?
    ensures var rs := ProcessEmails(StringArray(Tokenize(input))).results;
      rs != [] ==>
        Split(CsvContent(FirstNameColumn(rs)), {'\n'}) == FirstNameColumn(rs) &&
        Split(CsvContent(LastNameColumn(rs)), {'\n'}) == LastNameColumn(rs)
  {
    SubmitTokens(input);
    NamesHaveNoNewline(input);
    var rs := ProcessEmails(StringArray(Tokenize(input))).results;
    if rs != [] {
      CsvLines(FirstNameColumn(rs));
      CsvLines(LastNameColumn(rs));
    }
  }
}
