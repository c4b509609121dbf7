/** Writing records out as netrc lines, and what parsing makes of such lines:
    the reference the parser is checked against. */
module NetrcFormat {
  import opened Authenticators
  import opened NetrcParser

  /** `keyword value` on a line of its own, or nothing for an empty value. */
  function FieldLines(keyword: string, value: string): (r: seq<string>)
  {
    if value == NIL then [] else [keyword + " " + value]
  }

  /** One block: `machine <name>` or `default`, then one line per non-empty field. */
  function RecordLines(a: Authenticator): (r: seq<string>)
  {
    (if a.Host? then [MACHINE + " " + a.machine] else [DEFAULT]) +
    FieldLines(LOGIN, a.login) + FieldLines(PASSWORD, a.password) + FieldLines(ACCOUNT, a.account)
  }

  /** The blocks of all records, in order. */
  function Format(rs: seq<Authenticator>): (r: seq<string>)
  {
    if rs == [] then [] else Format(rs[..|rs| - 1]) + RecordLines(rs[|rs| - 1])
  }

  /** Splitting a whitespace-free prefix followed by whitespace or nothing. */
  lemma {:induction false} WordLenOfPrefix(t: string, u: string)
    requires forall i :: 0 <= i < |t| ==> !IsSpace(t[i])
    requires u == [] || IsSpace(u[0])
    ensures WordLen(t + u) == |t|
  {
    if t != [] {
      assert (t + u)[1..] == t[1..] + u;
      WordLenOfPrefix(t[1..], u);
    } else {
      assert t + u == u;
    }
  }

  lemma WordsOfTokenThen(t: string, u: string)
    requires IsToken(t)
    requires u == [] || IsSpace(u[0])
    ensures Words(t + u) == [t] + Words(u)
  {
    WordLenOfPrefix(t, u);
    assert (t + u)[..|t|] == t;
    assert (t + u)[|t|..] == u;
  }

  /** A line `k v` of two tokens splits into exactly those two tokens. */
  lemma WordsOfPair(k: string, v: string)
    requires IsToken(k) && IsToken(v)
    ensures Words(k + " " + v) == [k, v]
  {
    assert k + " " + v == k + (" " + v);
    WordsOfTokenThen(k, " " + v);
    assert (" " + v)[1..] == v;
    assert v + [] == v;
    WordsOfTokenThen(v, []);
  }

  lemma WordsOfToken(k: string)
    requires IsToken(k)
    ensures Words(k) == [k]
  {
    assert k + [] == k;
    WordsOfTokenThen(k, []);
  }

  lemma KeywordsAreTokens()
    ensures IsToken(MACHINE) && IsToken(DEFAULT) && IsToken(MACDEF)
    ensures IsToken(LOGIN) && IsToken(PASSWORD) && IsToken(ACCOUNT)
  {
  }

  /** Reading the first token of a fresh line. */
  lemma NextTokenOfLine(line: string, rest: seq<string>)
    ensures NextToken([], [line] + rest) == NextToken(Words(line), rest)
  {
    assert ([line] + rest)[1..] == rest;
  }

  /** A fresh line starting with a token: the pass takes that token's step. */
  lemma LineStep(line: string, rest: seq<string>, pending: Option<Authenticator>)
    requires Words(line) != []
    ensures var st := ParseStep(Words(line)[0], Words(line)[1..], rest, pending);
      ParseFrom([], [line] + rest, pending) ==
        if st.Stop? then Outcome(st.stored, Some(st.error))
        else Prepend(st.stored, ParseFrom(st.cur, st.rest, st.pending))
  {
    NextTokenOfLine(line, rest);
    ParseFromUnfold([], [line] + rest, pending);
  }

  /** A line without tokens, such as a blank one, changes nothing. */
  lemma {:induction false} EmptyLineIgnored(line: string, rest: seq<string>, pending: Option<Authenticator>)
    requires Words(line) == []
    ensures ParseFrom([], [line] + rest, pending) == ParseFrom([], rest, pending)
  {
    NextTokenOfLine(line, rest);
  }

  /** `machine m` finalizes the record under construction and starts a host
      record for `m` with every other field empty. */
  lemma MachineLine(m: string, rest: seq<string>, pending: Option<Authenticator>)
    requires IsToken(m)
    ensures ParseFrom([], [MACHINE + " " + m] + rest, pending) ==
      Prepend(Stored(pending), ParseFrom([], rest, Some(Host(m, NIL, NIL, NIL))))
  {
    var line := MACHINE + " " + m;
    assert Words(line) == [MACHINE, m] by {
      KeywordsAreTokens();
      WordsOfPair(MACHINE, m);
    }
    LineStep(line, rest, pending);
    assert [MACHINE, m][1..] == [m];
    assert ParseStep(MACHINE, [m], rest, pending) == Go(Stored(pending), [], rest, Some(Host(m, NIL, NIL, NIL)));
  }

  /** `default` finalizes the record under construction and starts an empty
      default record. */
  lemma DefaultLine(rest: seq<string>, pending: Option<Authenticator>)
    ensures ParseFrom([], [DEFAULT] + rest, pending) ==
      Prepend(Stored(pending), ParseFrom([], rest, Some(Default(NIL, NIL, NIL, NIL))))
  {
    assert Words(DEFAULT) == [DEFAULT] by {
      KeywordsAreTokens();
      WordsOfToken(DEFAULT);
    }
    LineStep(DEFAULT, rest, pending);
    assert [DEFAULT][1..] == [];
    assert ParseStep(DEFAULT, [], rest, pending) == Go(Stored(pending), [], rest, Some(Default(NIL, NIL, NIL, NIL))) by {
      assert DEFAULT != MACHINE;
    }
  }

  /** Lines that hold no token are passed over when reading the next token. */
  lemma {:induction false} NextTokenAfterBlank(blank: seq<string>, rest: seq<string>)
    requires forall i :: 0 <= i < |blank| ==> Words(blank[i]) == []
    ensures NextToken([], blank + rest) == NextToken([], rest)
    decreases |blank|
  {
    if blank != [] {
      assert (blank + rest)[0] == blank[0];
      assert (blank + rest)[1..] == blank[1..] + rest;
      forall i | 0 <= i < |blank[1..]| ensures Words(blank[1..][i]) == [] {
        assert blank[1..][i] == blank[i + 1];
      }
      NextTokenAfterBlank(blank[1..], rest);
    } else {
      assert blank + rest == rest;
    }
  }

  /** A `machine` that ends its line takes its host from the next line that
      holds a token, skipping lines that hold none; the rest of that line is
      read next. */
  lemma MachineHostOnLaterLine(blank: seq<string>, line: string, rest: seq<string>, pending: Option<Authenticator>)
    requires forall i :: 0 <= i < |blank| ==> Words(blank[i]) == []
    requires Words(line) != []
    ensures ParseStep(MACHINE, [], blank + ([line] + rest), pending) ==
      Go(Stored(pending), Words(line)[1..], rest, Some(Host(Words(line)[0], NIL, NIL, NIL)))
  {
    NextTokenAfterBlank(blank, [line] + rest);
    NextTokenOfLine(line, rest);
  }

  /** The step of a field keyword whose value is the next token. */
  lemma FieldStep(k: string, v: string, rest: seq<string>, p: Authenticator)
    requires IsField(k) && IsToken(v)
    ensures ParseStep(k, [v], rest, Some(p)) == Go([], [], rest, Some(SetField(p, k, v)))
  {
    assert k != MACHINE && k != DEFAULT by {
      assert k[0] != MACHINE[0] && k[0] != DEFAULT[0];
    }
  }

  /** `login v`, `password v` or `account v` sets that one field of the
      record under construction. */
  lemma FieldLine(k: string, v: string, rest: seq<string>, p: Authenticator)
    requires IsField(k) && IsToken(v)
    ensures ParseFrom([], [k + " " + v] + rest, Some(p)) == ParseFrom([], rest, Some(SetField(p, k, v)))
  {
    var line := k + " " + v;
    assert Words(line) == [k, v] by {
      KeywordsAreTokens();
      WordsOfPair(k, v);
    }
    LineStep(line, rest, Some(p));
    FieldStep(k, v, rest, p);
    assert [k, v][1..] == [v];
  }

  lemma FieldLinesStep(k: string, v: string, rest: seq<string>, p: Authenticator)
    requires IsField(k) && IsValue(v)
    ensures ParseFrom([], FieldLines(k, v) + rest, Some(p)) ==
      ParseFrom([], rest, Some(if v == NIL then p else SetField(p, k, v)))
  {
    if v == NIL {
      assert FieldLines(k, v) + rest == rest;
    } else {
      FieldLine(k, v, rest, p);
    }
  }

  /** The record a block's header line starts: the machine of a host
      record, every other field empty. */
  function Header(a: Authenticator): (r: Authenticator)
    ensures r.Host? <==> a.Host?
    ensures r.machine == a.machine || a.Default?
    ensures r.login == NIL && r.password == NIL && r.account == NIL
  {
    if a.Host? then Host(a.machine, NIL, NIL, NIL) else Default(NIL, NIL, NIL, NIL)
  }

  /** The field lines of a block turn the header's record into the record. */
  lemma FieldsStep(a: Authenticator, rest: seq<string>)
    requires Parsable(a)
    ensures ParseFrom([], FieldLines(LOGIN, a.login) + (FieldLines(PASSWORD, a.password) + (FieldLines(ACCOUNT, a.account) + rest)), Some(Header(a))) ==
      ParseFrom([], rest, Some(a))
  {
    var f2, f3 := FieldLines(PASSWORD, a.password), FieldLines(ACCOUNT, a.account);
    var p0 := Header(a);
    var p1 := if a.login == NIL then p0 else SetField(p0, LOGIN, a.login);
    var p2 := if a.password == NIL then p1 else SetField(p1, PASSWORD, a.password);
    var p3 := if a.account == NIL then p2 else SetField(p2, ACCOUNT, a.account);
    assert p3 == a;
    assert ParseFrom([], f3 + rest, Some(p2)) == ParseFrom([], rest, Some(a)) by {
      FieldLinesStep(ACCOUNT, a.account, rest, p2);
    }
    assert ParseFrom([], f2 + (f3 + rest), Some(p1)) == ParseFrom([], f3 + rest, Some(p2)) by {
      FieldLinesStep(PASSWORD, a.password, f3 + rest, p1);
    }
    FieldLinesStep(LOGIN, a.login, f2 + (f3 + rest), p0);
  }

  /** The block of one record finalizes the record under construction and
      leaves exactly that record under construction. */
  lemma RecordStep(a: Authenticator, rest: seq<string>, pending: Option<Authenticator>)
    requires Parsable(a)
    ensures ParseFrom([], RecordLines(a) + rest, pending) ==
      Prepend(Stored(pending), ParseFrom([], rest, Some(a)))
  {
    var head := if a.Host? then [MACHINE + " " + a.machine] else [DEFAULT];
    var f1, f2, f3 := FieldLines(LOGIN, a.login), FieldLines(PASSWORD, a.password), FieldLines(ACCOUNT, a.account);
    var fields := f1 + (f2 + (f3 + rest));
    assert RecordLines(a) + rest == head + fields;
    assert ParseFrom([], head + fields, pending) == Prepend(Stored(pending), ParseFrom([], fields, Some(Header(a)))) by {
      if a.Host? {
        MachineLine(a.machine, fields, pending);
      } else {
        DefaultLine(fields, pending);
      }
    }
    FieldsStep(a, rest);
  }

  /** The lines of `rs` are those of all records but the last, then the
      block of the last. */
  lemma FormatSnoc(rs: seq<Authenticator>, rest: seq<string>)
    requires rs != []
    ensures Format(rs) + rest == Format(rs[..|rs| - 1]) + (RecordLines(rs[|rs| - 1]) + rest)
  {
    SeqAssoc(Format(rs[..|rs| - 1]), RecordLines(rs[|rs| - 1]), rest);
  }

  lemma AllParsablePrefix(rs: seq<Authenticator>)
    requires AllParsable(rs) && rs != []
    ensures AllParsable(rs[..|rs| - 1]) && Parsable(rs[|rs| - 1])
  {
    assert forall i :: 0 <= i < |rs| - 1 ==> rs[..|rs| - 1][i] == rs[i];
  }

  /** The blocks of `rs` followed by more lines, parsed from the start of a
      file: all records but the last are finalized, and the last is under
      construction when the rest begins. */
  lemma {:induction false} FormatStep(rs: seq<Authenticator>, rest: seq<string>)
    requires AllParsable(rs) && rs != []
    ensures ParseFrom([], Format(rs) + rest, None) == Prepend(rs[..|rs| - 1], ParseFrom([], rest, Some(rs[|rs| - 1])))
  {
    AllParsablePrefix(rs);
    if |rs| == 1 {
      FormatOne(rs, rest);
    } else {
      FormatStep(rs[..|rs| - 1], RecordLines(rs[|rs| - 1]) + rest);
      FormatMore(rs, rest);
    }
  }

  /** The base case of `FormatStep`: a single block. */
  lemma FormatOne(rs: seq<Authenticator>, rest: seq<string>)
    requires |rs| == 1 && Parsable(rs[0])
    ensures ParseFrom([], Format(rs) + rest, None) == Prepend(rs[..|rs| - 1], ParseFrom([], rest, Some(rs[|rs| - 1])))
  {
    FormatSnoc(rs, rest);
    assert rs[..|rs| - 1] == [];
    SeqUnit(RecordLines(rs[0]) + rest);
    RecordStep(rs[0], rest, None);
  }

  /** The inductive case of `FormatStep`: from the blocks of all records but
      the last to the blocks of all of them. */
  lemma FormatMore(rs: seq<Authenticator>, rest: seq<string>)
    requires |rs| >= 2 && Parsable(rs[|rs| - 1])
    requires var init := rs[..|rs| - 1];
      ParseFrom([], Format(init) + (RecordLines(rs[|rs| - 1]) + rest), None) ==
      Prepend(init[..|init| - 1], ParseFrom([], RecordLines(rs[|rs| - 1]) + rest, Some(init[|init| - 1])))
    ensures ParseFrom([], Format(rs) + rest, None) == Prepend(rs[..|rs| - 1], ParseFrom([], rest, Some(rs[|rs| - 1])))
  {
    var init, last := rs[..|rs| - 1], rs[|rs| - 1];
    FormatSnoc(rs, rest);
    BlockAfter(init[..|init| - 1], init[|init| - 1], last, rest, ParseFrom([], Format(init) + (RecordLines(last) + rest), None));
    SeqSnoc(init);
  }

  /** `FormatStep` for a whole file whose lines after the blocks of `rs`
      are known to give `o` when parsed with the last record under
      construction. */
  lemma FormatThen(rs: seq<Authenticator>, tail: seq<string>, o: Outcome)
    requires AllParsable(rs) && rs != []
    requires ParseFrom([], tail, Some(rs[|rs| - 1])) == o
    ensures ParseLines(Format(rs) + tail) == Prepend(rs[..|rs| - 1], o)
  {
    FormatStep(rs, tail);
  }

  /** Lines after the blocks of `rs` that stop the pass at once, with the
      last record under construction: the records before it are kept, it is
      dropped. */
  lemma StopAfterFormat(rs: seq<Authenticator>, tail: seq<string>, e: ParseError)
    requires AllParsable(rs) && rs != []
    requires ParseFrom([], tail, Some(rs[|rs| - 1])) == Outcome([], Some(e))
    ensures ParseLines(Format(rs) + tail) == Outcome(rs[..|rs| - 1], Some(e))
  {
    FormatThen(rs, tail, Outcome([], Some(e)));
    SeqUnit(rs[..|rs| - 1]);
  }

  /** The inductive step of `FormatStep`: parsing one more block moves the
      record under construction `prev` into the finalized records `done`
      and leaves `last` under construction. */
  lemma BlockAfter(done: seq<Authenticator>, prev: Authenticator, last: Authenticator, rest: seq<string>, o: Outcome)
    requires Parsable(last)
    requires o == Prepend(done, ParseFrom([], RecordLines(last) + rest, Some(prev)))
    ensures o == Prepend(done + [prev], ParseFrom([], rest, Some(last)))
  {
    RecordStep(last, rest, Some(prev));
    PrependTwice(done, [prev], ParseFrom([], rest, Some(last)));
  }

  lemma PrependTwice(s: seq<Authenticator>, t: seq<Authenticator>, o: Outcome)
    ensures Prepend(s, Prepend(t, o)) == Prepend(s + t, o)
  {
  }

  /** Round trip: parsing the formatted records gives back exactly those
      records, in order, without error. With `ParseLines`' own guarantee
      that it yields only such records, these are exactly the record lists a
      netrc file can produce. */
  lemma ParseFormat(rs: seq<Authenticator>)
    requires AllParsable(rs)
    ensures ParseLines(Format(rs)) == Outcome(rs, None)
  {
    if rs != [] {
      var last := rs[|rs| - 1];
      assert ParseFrom([], [], Some(last)) == Outcome([last], None);
      FormatThen(rs, [], Outcome([last], None));
      SeqUnit(Format(rs));
      SeqSnoc(rs);
    }
  }

  /** `skipMacdef` resumes right after the first blank line. */
  lemma {:induction false} SkipMacdefBody(body: seq<string>, rest: seq<string>)
    requires forall i :: 0 <= i < |body| ==> body[i] != NIL
    ensures SkipMacdef(body + [NIL] + rest) == rest
  {
    if body == [] {
      assert body + [NIL] + rest == [NIL] + rest;
    } else {
      assert (body + [NIL] + rest)[1..] == body[1..] + [NIL] + rest;
      SkipMacdefBody(body[1..], rest);
    }
  }

  /** `macdef name` skips the rest of its line and the lines up to the first
      blank one, and nothing else. */
  lemma MacdefLine(name: string, rest: seq<string>, pending: Option<Authenticator>)
    requires IsToken(name)
    ensures ParseFrom([], [MACDEF + " " + name] + rest, pending) == ParseFrom([], SkipMacdef(rest), pending)
  {
    var line := MACDEF + " " + name;
    assert Words(line) == [MACDEF, name] by {
      KeywordsAreTokens();
      WordsOfPair(MACDEF, name);
    }
    LineStep(line, rest, pending);
    assert [MACDEF, name][1..] == [name];
    assert ParseStep(MACDEF, [name], rest, pending) == Go([], [], SkipMacdef(rest), pending) by {
      assert MACDEF != MACHINE && MACDEF != DEFAULT && !IsField(MACDEF) by {
        assert |MACDEF| != |MACHINE|;
      }
    }
    assert Prepend([], ParseFrom([], SkipMacdef(rest), pending)) == ParseFrom([], SkipMacdef(rest), pending);
  }

  /** A `macdef` block has no effect: whatever its body says, it neither
      finalizes, starts nor changes a record, and parsing resumes after the
      blank line that ends it. This holds with or without a record under
      construction. */
  lemma MacdefIgnored(name: string, body: seq<string>, rest: seq<string>, pending: Option<Authenticator>)
    requires IsToken(name)
    requires forall i :: 0 <= i < |body| ==> body[i] != NIL
    ensures ParseFrom([], [MACDEF + " " + name] + body + [NIL] + rest, pending) == ParseFrom([], rest, pending)
  {
    var head := MACDEF + " " + name;
    assert [head] + body + [NIL] + rest == [head] + (body + [NIL] + rest);
    MacdefLine(name, body + [NIL] + rest, pending);
    SkipMacdefBody(body, rest);
  }

  /** A field keyword alone on the last line stops the pass as truncated
      and drops the record under construction. */
  lemma TruncatedFieldLine(k: string, p: Authenticator)
    requires IsField(k)
    ensures ParseFrom([], [k], Some(p)) == Outcome([], Some(Truncated(k)))
  {
    assert Words(k) == [k] by {
      KeywordsAreTokens();
      WordsOfToken(k);
    }
    LineStep(k, [], Some(p));
    assert [k][1..] == [];
    FieldStopStep(k, p);
  }

  /** A field keyword with nothing after it in the file. */
  lemma FieldStopStep(k: string, p: Authenticator)
    requires IsField(k)
    ensures ParseStep(k, [], [], Some(p)) == Stop([], Truncated(k))
  {
    assert k != MACHINE && k != DEFAULT by {
      assert k[0] != MACHINE[0] && k[0] != DEFAULT[0];
    }
    assert NextToken([], []) == None;
  }

  /** A file that ends right after a bare `login`, `password` or `account`:
      the records before the last block are kept, the last one (under
      construction) is dropped, and the parse fails as truncated. */
  lemma TruncatedField(rs: seq<Authenticator>, k: string)
    requires AllParsable(rs) && rs != [] && IsField(k)
    ensures ParseLines(Format(rs) + [k]) == Outcome(rs[..|rs| - 1], Some(Truncated(k)))
  {
    TruncatedFieldLine(k, rs[|rs| - 1]);
    StopAfterFormat(rs, [k], Truncated(k));
  }

  /** A field keyword read where no record is under construction, that is
      before any `machine` or `default` (blank lines and `macdef` blocks
      before it included), fails the parse with `NoEntry` and finalizes
      nothing. For a whole file, `cur` is empty and `rest` is its lines. */
  lemma FieldBeforeEntry(cur: seq<string>, rest: seq<string>)
    requires NextToken(cur, rest).Some? && IsField(NextToken(cur, rest).value.token)
    ensures ParseFrom(cur, rest, None) == Outcome([], Some(NoEntry(NextToken(cur, rest).value.token)))
  {
    var n := NextToken(cur, rest).value;
    var k := n.token;
    assert ParseStep(k, n.cur, n.rest, None) == Stop([], NoEntry(k)) by {
      assert k != MACHINE && k != DEFAULT by {
        assert k[0] != MACHINE[0] && k[0] != DEFAULT[0];
      }
    }
  }

  /** A line opening with a token that is not a keyword stops the pass and
      drops the record under construction. */
  lemma UnknownLine(t: string, rest: seq<string>, pending: Option<Authenticator>)
    requires IsToken(t) && !IsKeyword(t)
    ensures ParseFrom([], [t] + rest, pending) == Outcome([], Some(UnknownToken(t)))
  {
    WordsOfToken(t);
    LineStep(t, rest, pending);
    assert [t][1..] == [];
    assert ParseStep(t, [], rest, pending) == Stop([], UnknownToken(t));
  }

  /** A token that is not a keyword where a keyword is expected fails the
      parse; blocks finalized before it are kept, the one under
      construction is dropped. (With no block before it, `UnknownLine`
      with no record under construction says the same.) */
  lemma UnknownKeyword(rs: seq<Authenticator>, t: string, rest: seq<string>)
    requires AllParsable(rs) && rs != [] && IsToken(t)
    requires !IsKeyword(t)
    ensures ParseLines(Format(rs) + ([t] + rest)) == Outcome(rs[..|rs| - 1], Some(UnknownToken(t)))
  {
    UnknownLine(t, rest, Some(rs[|rs| - 1]));
    StopAfterFormat(rs, [t] + rest, UnknownToken(t));
  }
}
