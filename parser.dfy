/** Reading a netrc file held in memory as its lines. Tokens are separated by
    whitespace and may run across lines; the body of a `macdef` is skipped up
    to the first blank line. The keyword grammar is the one of the BSD ftp(1)
    manual: `machine <name>`, `default`, `login <v>`, `password <v>`,
    `account <v>`, `macdef <name>`. */
module NetrcParser {
  import opened Authenticators

  const MACHINE: string := "machine"
  const DEFAULT: string := "default"
  const LOGIN: string := "login"
  const PASSWORD: string := "password"
  const ACCOUNT: string := "account"
  const MACDEF: string := "macdef"

  /** The keywords that set one field of the record under construction. */
  predicate IsField(token: string)
  {
    token == LOGIN || token == PASSWORD || token == ACCOUNT
  }

  /** The six keywords of the file format. */
  predicate IsKeyword(token: string)
  {
    token == MACHINE || token == DEFAULT || IsField(token) || token == MACDEF
  }

  /** The characters the C++ stream extraction skips: space, tab, newline,
      vertical tab, form feed and carriage return. */
  predicate IsSpace(c: char)
  {
    c == ' ' || c == '\t' || c == '\n' || c == '\U{000B}' || c == '\U{000C}' || c == '\r'
  }

  /** A token: a non-empty run of non-whitespace characters. */
  predicate IsToken(w: string)
  {
    |w| > 0 && forall i :: 0 <= i < |w| ==> !IsSpace(w[i])
  }

  predicate AllTokens(ws: seq<string>)
  {
    forall i :: 0 <= i < |ws| ==> IsToken(ws[i])
  }

  /** Length of the longest whitespace-free prefix of `s`. */
  function WordLen(s: string): (n: nat)
    ensures n <= |s|
    ensures s != [] && !IsSpace(s[0]) ==> n > 0
  {
    if s == [] || IsSpace(s[0]) then 0 else 1 + WordLen(s[1..])
  }

  /** `WordLen` stops at the first whitespace character. */
  lemma {:induction false} WordLenSpec(s: string)
    ensures forall i :: 0 <= i < WordLen(s) ==> !IsSpace(s[i])
    ensures WordLen(s) < |s| ==> IsSpace(s[WordLen(s)])
  {
    if s != [] && !IsSpace(s[0]) {
      WordLenSpec(s[1..]);
      forall i | 0 <= i < WordLen(s) ensures !IsSpace(s[i]) {
        if i > 0 {
          assert s[i] == s[1..][i - 1];
        }
      }
    }
  }

  /** The tokens of one line, left to right. */
  function Words(s: string): (r: seq<string>)
    decreases |s|
  {
    if s == [] then []
    else if IsSpace(s[0]) then Words(s[1..])
    else
      var n := WordLen(s);
      [s[..n]] + Words(s[n..])
  }

  /** Every piece `Words` cuts out is a token. */
  lemma {:induction false} WordsAreTokens(s: string)
    ensures AllTokens(Words(s))
    decreases |s|
  {
    if s == [] {
    } else if IsSpace(s[0]) {
      WordsAreTokens(s[1..]);
    } else {
      var n := WordLen(s);
      WordLenSpec(s);
      WordsAreTokens(s[n..]);
      assert IsToken(s[..n]);
    }
  }

  /** A read position: the unread tokens of the current line and the lines
      not yet started. */
  datatype Next = Next(token: string, cur: seq<string>, rest: seq<string>)

  /** The next token of the stream, crossing line boundaries, or `None` at the
      end of the file. Reading a token moves the position forward. */
  function NextToken(cur: seq<string>, rest: seq<string>): (r: Option<Next>)
    ensures r.Some? ==> |r.value.rest| < |rest| || (|r.value.rest| == |rest| && |r.value.cur| < |cur|)
    decreases |rest|, |cur|
  {
    if cur != [] then Some(Next(cur[0], cur[1..], rest))
    else if rest == [] then None
    else NextToken(Words(rest[0]), rest[1..])
  }

  /** The stream ends exactly when no token is left on the current line or
      on any later one; otherwise the lines left are a suffix of those there
      were. The token read is the first unread one of the current line; when
      that line is used up, it is the first token of the next line `k` that
      holds one, every line before `k` holding none, and reading goes on
      with the rest of line `k` and the lines after it. */
  lemma NextTokenSpec(cur: seq<string>, rest: seq<string>)
    ensures var r := NextToken(cur, rest);
      (r.None? <==> cur == [] && forall i :: 0 <= i < |rest| ==> Words(rest[i]) == []) &&
      (r.Some? ==> r.value.rest == rest[|rest| - |r.value.rest|..]) &&
      (cur != [] ==> r == Some(Next(cur[0], cur[1..], rest))) &&
      (cur == [] && r.Some? ==> exists k :: (0 <= k < |rest| &&
         (forall i :: 0 <= i < k ==> Words(rest[i]) == []) &&
         Words(rest[k]) == [r.value.token] + r.value.cur && r.value.rest == rest[k + 1..]))
  {
    NextTokenEnds(cur, rest);
    if cur == [] {
      NextTokenLater(rest);
    }
  }

  /** When the stream ends, and that the lines left are a suffix. */
  lemma {:induction false} NextTokenEnds(cur: seq<string>, rest: seq<string>)
    ensures var r := NextToken(cur, rest);
      (r.None? <==> cur == [] && forall i :: 0 <= i < |rest| ==> Words(rest[i]) == []) &&
      (r.Some? ==> r.value.rest == rest[|rest| - |r.value.rest|..])
    decreases |rest|, |cur|
  {
    if cur == [] && rest != [] {
      NextTokenEnds(Words(rest[0]), rest[1..]);
      var r := NextToken(cur, rest);
      if r.None? {
        forall i | 1 <= i < |rest| ensures Words(rest[i]) == [] {
          assert rest[i] == rest[1..][i - 1];
        }
      }
    }
  }

  /** With the current line used up, the token read is the first of the next
      line that holds one. */
  lemma {:induction false} NextTokenLater(rest: seq<string>)
    ensures var r := NextToken([], rest);
      r.Some? ==> exists k :: (0 <= k < |rest| &&
        (forall i :: 0 <= i < k ==> Words(rest[i]) == []) &&
        Words(rest[k]) == [r.value.token] + r.value.cur && r.value.rest == rest[k + 1..])
    decreases |rest|
  {
    if rest != [] {
      var w := Words(rest[0]);
      var r := NextToken([], rest);
      assert r == NextToken(w, rest[1..]);
      if w != [] {
        assert r == Some(Next(w[0], w[1..], rest[1..]));
        assert w == [w[0]] + w[1..];
        assert rest[0 + 1..] == rest[1..];
      } else if r.Some? {
        NextTokenLater(rest[1..]);
        var k :| 0 <= k < |rest[1..]| &&
          (forall i :: 0 <= i < k ==> Words(rest[1..][i]) == []) &&
          Words(rest[1..][k]) == [r.value.token] + r.value.cur && r.value.rest == rest[1..][k + 1..];
        assert rest[1..][k + 1..] == rest[k + 2..];
        forall i | 0 <= i < k + 1 ensures Words(rest[i]) == [] {
          if i > 0 {
            assert rest[i] == rest[1..][i - 1];
          }
        }
        assert Words(rest[k + 1]) == [r.value.token] + r.value.cur;
      }
    }
  }

  /** Reading from a position whose current line holds only tokens yields a
      token and again such a position. */
  lemma {:induction false} NextTokenTokens(cur: seq<string>, rest: seq<string>)
    requires AllTokens(cur)
    ensures var r := NextToken(cur, rest);
      r.Some? ==> IsToken(r.value.token) && AllTokens(r.value.cur)
    decreases |rest|, |cur|
  {
    if cur == [] && rest != [] {
      WordsAreTokens(rest[0]);
      NextTokenTokens(Words(rest[0]), rest[1..]);
    }
  }

  /** `skipMacdef`: drops lines up to and including the first blank one. */
  function SkipMacdef(rest: seq<string>): (r: seq<string>)
    ensures |r| <= |rest|
  {
    if rest == [] then []
    else if rest[0] == NIL then rest[1..]
    else SkipMacdef(rest[1..])
  }

  /** What `skipMacdef` leaves is the suffix after the first blank line, or
      nothing when no line is blank. */
  lemma {:induction false} SkipMacdefSpec(rest: seq<string>)
    ensures var r := SkipMacdef(rest);
      r == rest[|rest| - |r|..] &&
      (forall i :: 0 <= i < |rest| - |r| - 1 ==> rest[i] != NIL) &&
      ((|r| < |rest| && rest[|rest| - |r| - 1] == NIL) || (r == [] && forall i :: 0 <= i < |rest| ==> rest[i] != NIL))
  {
    if rest != [] && rest[0] != NIL {
      SkipMacdefSpec(rest[1..]);
      forall i | 1 <= i < |rest| ensures rest[i] == rest[1..][i - 1] {
      }
    }
  }

  /** What the C++ code throws; `FileAccess` when the file cannot be opened,
      the others for a malformed file. */
  datatype ParseError =
    | FileAccess
    | NoEntry(keyword: string)      // a field keyword before any `machine` or `default`
    | Truncated(keyword: string)    // the file ends where a keyword needs its value
    | UnknownToken(token: string)   // a token that is not a keyword

  /** The records a parse appends to the store, in file order, and the error
      it stopped on, if any. */
  datatype Outcome = Outcome(stored: seq<Authenticator>, err: Option<ParseError>)

  /** What `storeAuthenticator` appends: the record under construction, if any. */
  function Stored(pending: Option<Authenticator>): (r: seq<Authenticator>)
    ensures |r| <= 1 && (r == [] <==> pending.None?)
    ensures pending.Some? ==> r[0] == pending.value
  {
    if pending.Some? then [pending.value] else []
  }

  /** The outcome `o` with the records `s` finalized before it. */
  function Prepend(s: seq<Authenticator>, o: Outcome): (r: Outcome)
  {
    Outcome(s + o.stored, o.err)
  }

  /** The field setter a field keyword selects. */
  function SetField(a: Authenticator, keyword: string, value: string): (r: Authenticator)
    requires IsField(keyword)
    ensures keyword == LOGIN ==> r == SetLogin(a, value)
    ensures keyword == PASSWORD ==> r == SetPassword(a, value)
    ensures keyword == ACCOUNT ==> r == SetAccount(a, value)
  {
    if keyword == LOGIN then SetLogin(a, value)
    else if keyword == PASSWORD then SetPassword(a, value)
    else SetAccount(a, value)
  }

  /** A field value the file can spell: absent (empty) or one token. */
  predicate IsValue(v: string)
  {
    v == NIL || IsToken(v)
  }

  /** The records a netrc file can describe: a host record whose machine is
      one token, or a default record with an empty machine, whose other
      fields are each empty or one token. */
  predicate Parsable(a: Authenticator)
  {
    (if a.Host? then IsToken(a.machine) else a.machine == NIL) &&
    IsValue(a.login) && IsValue(a.password) && IsValue(a.account)
  }

  predicate AllParsable(s: seq<Authenticator>)
  {
    forall i :: 0 <= i < |s| ==> Parsable(s[i])
  }

  /** Where one keyword leaves the pass: stopped on an error, or going on
      from a new read position with a new record under construction. Either
      way `stored` is what it finalized first. */
  datatype Step =
    | Stop(stored: seq<Authenticator>, error: ParseError)
    | Go(stored: seq<Authenticator>, cur: seq<string>, rest: seq<string>, pending: Option<Authenticator>)

  /** The effect of one keyword `token`, read just before position
      (`cur`, `rest`), on the record under construction `pending`. A
      `machine` or `default` keyword finalizes `pending` and starts a new
      record (a `machine` finalizes before it reads the host, so a truncated
      `machine` keeps it); a field keyword needs a record under construction
      and sets one of its fields; a `macdef` skips its name, the rest of its
      line and its body; any other token is an error. An error drops the
      record under construction. A step that goes on never moves back. */
  function ParseStep(token: string, cur: seq<string>, rest: seq<string>, pending: Option<Authenticator>): (r: Step)
    ensures r.Go? ==> |r.rest| < |rest| || (|r.rest| == |rest| && |r.cur| <= |cur|)
    ensures r.Stop? ==> r.error != FileAccess
  {
    if token == MACHINE then
      match NextToken(cur, rest)
      case None => Stop(Stored(pending), Truncated(MACHINE))
      case Some(Next(host, cur1, rest1)) =>
        Go(Stored(pending), cur1, rest1, Some(SetMachine(NewAuthenticator(), host)))
    else if token == DEFAULT then
      Go(Stored(pending), cur, rest, Some(NewDefaultAuthenticator()))
    else if IsField(token) then
      if pending.None? then Stop([], NoEntry(token))
      else
        match NextToken(cur, rest)
        case None => Stop([], Truncated(token))
        case Some(Next(value, cur1, rest1)) =>
          Go([], cur1, rest1, Some(SetField(pending.value, token, value)))
    else if token == MACDEF then
      match NextToken(cur, rest)
      case None => Stop([], Truncated(MACDEF))
      case Some(Next(_, _, rest1)) => Go([], [], SkipMacdef(rest1), pending)
    else
      Stop([], UnknownToken(token))
  }

  /** Every record a step finalizes or starts is one a netrc file can
      describe, when the one under construction was. */
  lemma ParseStepParsable(token: string, cur: seq<string>, rest: seq<string>, pending: Option<Authenticator>)
    requires AllTokens(cur)
    requires pending.None? || Parsable(pending.value)
    ensures var r := ParseStep(token, cur, rest, pending);
      AllParsable(r.stored) && (r.Go? ==> AllTokens(r.cur) && (r.pending.None? || Parsable(r.pending.value)))
  {
    NextTokenTokens(cur, rest);
    var next := NextToken(cur, rest);
    if token == MACHINE {
      if next.Some? {
        assert Parsable(SetMachine(NewAuthenticator(), next.value.token));
      }
    } else if token == DEFAULT {
    } else if IsField(token) {
      if pending.Some? && next.Some? {
        SetFieldParsable(pending.value, token, next.value.token);
      }
    }
  }

  /** Setting a field of a describable record to a token keeps it describable. */
  lemma SetFieldParsable(a: Authenticator, keyword: string, value: string)
    requires Parsable(a) && IsField(keyword) && IsToken(value)
    ensures Parsable(SetField(a, keyword, value))
  {
  }

  /** One forward pass over the rest of the file, with `pending` the record
      under construction; the end of the file finalizes it. */
  function ParseFrom(cur: seq<string>, rest: seq<string>, pending: Option<Authenticator>): (r: Outcome)
    ensures r.err != Some(FileAccess)
    decreases |rest|, |cur|
  {
    match NextToken(cur, rest)
    case None => Outcome(Stored(pending), None)
    case Some(Next(token, cur1, rest1)) =>
      match ParseStep(token, cur1, rest1, pending)
      case Stop(stored, error) => Outcome(stored, Some(error))
      case Go(stored, cur2, rest2, pending2) => Prepend(stored, ParseFrom(cur2, rest2, pending2))
  }

  /** One turn of the pass: read a keyword, then take its step. */
  lemma ParseFromUnfold(cur: seq<string>, rest: seq<string>, pending: Option<Authenticator>)
    requires NextToken(cur, rest).Some?
    ensures var n := NextToken(cur, rest).value;
      var st := ParseStep(n.token, n.cur, n.rest, pending);
      ParseFrom(cur, rest, pending) ==
        if st.Stop? then Outcome(st.stored, Some(st.error))
        else Prepend(st.stored, ParseFrom(st.cur, st.rest, st.pending))
  {
  }

  /** Every record a pass finalizes is one a netrc file can describe. */
  lemma {:induction false} ParseFromParsable(cur: seq<string>, rest: seq<string>, pending: Option<Authenticator>)
    requires AllTokens(cur)
    requires pending.None? || Parsable(pending.value)
    ensures AllParsable(ParseFrom(cur, rest, pending).stored)
    decreases |rest|, |cur|
  {
    NextTokenTokens(cur, rest);
    var next := NextToken(cur, rest);
    if next.Some? {
      var n := next.value;
      ParseStepParsable(n.token, n.cur, n.rest, pending);
      var st := ParseStep(n.token, n.cur, n.rest, pending);
      if st.Go? {
        ParseFromParsable(st.cur, st.rest, st.pending);
        var tail := ParseFrom(st.cur, st.rest, st.pending).stored;
        forall i | 0 <= i < |st.stored| + |tail| ensures Parsable((st.stored + tail)[i]) {
          if i >= |st.stored| {
            assert (st.stored + tail)[i] == tail[i - |st.stored|];
          }
        }
      }
    }
  }

  /** A whole parse, from the first line with no record under construction. */
  function ParseLines(lines: seq<string>): (r: Outcome)
    ensures r.err != Some(FileAccess)
  {
    ParseFrom([], lines, None)
  }

  /** A parse yields only records a netrc file can describe. */
  lemma ParseLinesParsable(lines: seq<string>)
    ensures AllParsable(ParseLines(lines).stored)
  {
    ParseFromParsable([], lines, None);
  }

  /** Concatenation of sequences is associative. */
  lemma SeqAssoc<T>(a: seq<T>, b: seq<T>, c: seq<T>)
    ensures a + (b + c) == (a + b) + c
  {
  }

  /** The empty sequence is the unit of concatenation. */
  lemma SeqUnit<T>(s: seq<T>)
    ensures s + [] == s && [] + s == s
  {
  }

  /** A non-empty sequence is its front followed by its last element. */
  lemma SeqSnoc<T>(s: seq<T>)
    requires s != []
    ensures s[..|s| - 1] + [s[|s| - 1]] == s
  {
  }
}
