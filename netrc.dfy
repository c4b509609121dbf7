/** The credential store: an ordered list of records, appended to by hand or
    by parsing a netrc file, and searched for the first record that applies
    to a hostname. */
module NetrcStore {
  import opened Authenticators
  import opened NetrcParser

  /** `i` is the position of the record a lookup of `hostname` in `s` must
      return: it applies, and no record before it does. */
  predicate IsFirstMatch(s: seq<Authenticator>, hostname: string, i: int)
  {
    0 <= i < |s| && Match(s[i], hostname) && forall j :: 0 <= j < i ==> !Match(s[j], hostname)
  }

  /** The lookup over a sequence of records: the earliest record in sequence
      order that applies to `hostname`, or `None` when none does. */
  function FirstMatch(s: seq<Authenticator>, hostname: string): (r: Option<Authenticator>)
    ensures r.None? <==> forall i :: 0 <= i < |s| ==> !Match(s[i], hostname)
    ensures r.Some? ==> exists i :: IsFirstMatch(s, hostname, i) && s[i] == r.value
  {
    if s == [] then None
    else if Match(s[0], hostname) then
      assert IsFirstMatch(s, hostname, 0);
      Some(s[0])
    else
      var r := FirstMatch(s[1..], hostname);
      if r.Some? then
        var i :| IsFirstMatch(s[1..], hostname, i) && s[1..][i] == r.value;
        assert IsFirstMatch(s, hostname, i + 1);
        r
      else
        r
  }

  /** Only one position can be the first match, so the record a lookup
      returns is the one at that position. */
  lemma FirstMatchIsUnique(s: seq<Authenticator>, hostname: string, i: int, k: int)
    requires IsFirstMatch(s, hostname, i) && IsFirstMatch(s, hostname, k)
    ensures i == k
  {
  }

  /** A lookup in a sequence that holds a default record always succeeds. */
  lemma DefaultGuaranteesMatch(s: seq<Authenticator>, hostname: string, d: int)
    requires 0 <= d < |s| && s[d].Default?
    ensures FirstMatch(s, hostname).Some?
    ensures Match(FirstMatch(s, hostname).value, hostname)
  {
  }

  /** Appending a record never changes a lookup that already succeeded; a
      lookup that failed now finds the new record exactly when it applies. */
  lemma {:induction false} FirstMatchAppend(s: seq<Authenticator>, a: Authenticator, hostname: string)
    ensures FirstMatch(s + [a], hostname) ==
      if FirstMatch(s, hostname).Some? then FirstMatch(s, hostname)
      else if Match(a, hostname) then Some(a)
      else None
  {
    if s != [] {
      assert (s + [a])[1..] == s[1..] + [a];
      FirstMatchAppend(s[1..], a, hostname);
    }
  }

  /** Whatever is appended after a successful lookup's records, the lookup
      returns the same record. */
  lemma {:induction false} AppendKeepsHit(s: seq<Authenticator>, t: seq<Authenticator>, hostname: string)
    requires FirstMatch(s, hostname).Some?
    ensures FirstMatch(s + t, hostname) == FirstMatch(s, hostname)
    decreases |t|
  {
    if t != [] {
      var init := t[..|t| - 1];
      AppendKeepsHit(s, init, hostname);
      FirstMatchAppend(s + init, t[|t| - 1], hostname);
      SeqSnoc(t);
      SeqAssoc(s, init, [t[|t| - 1]]);
      assert s + t == (s + init) + [t[|t| - 1]];
    } else {
      SeqUnit(s);
    }
  }

  /** The first record added for a machine wins: a later host record for the
      same machine, wherever it sits after it, stays in the list but is never
      returned for that name. */
  lemma EarlierDuplicateWins(s: seq<Authenticator>, x: Authenticator, t: seq<Authenticator>)
    requires FirstMatch(s, x.machine).None?
    ensures FirstMatch(s + [x] + t, x.machine) == Some(x)
  {
    FirstMatchAppend(s, x, x.machine);
    AppendKeepsHit(s + [x], t, x.machine);
  }

  /** The in-memory `Netrc` object. */
  class Netrc {
    /** `_authenticators`, in insertion order. */
    var authenticators: seq<Authenticator>

    /** `Netrc()`: an empty store. */
    constructor()
      ensures authenticators == []
    {
      authenticators := [];
    }

    /** `getAuthenticators`: the whole list, unreachable duplicates included.
        A function, so reading it leaves the store as it was. */
    function GetAuthenticators(): (r: seq<Authenticator>)
      reads this
      ensures r == authenticators
    {
      authenticators
    }

    /** `addAuthenticator`: appends one record; every earlier record keeps its
        position and value. */
    method AddAuthenticator(a: Authenticator)
      modifies this
      ensures authenticators == old(authenticators) + [a]
      ensures |authenticators| == |old(authenticators)| + 1
      ensures forall i :: 0 <= i < |old(authenticators)| ==> authenticators[i] == old(authenticators[i])
      ensures forall hostname :: (FindAuthenticator(hostname) ==
        if old(FindAuthenticator(hostname)).Some? then old(FindAuthenticator(hostname))
        else if Match(a, hostname) then Some(a)
        else None)
      ensures a.Default? ==> forall hostname :: FindAuthenticator(hostname).Some?
    {
      authenticators := authenticators + [a];
      forall hostname
        ensures FindAuthenticator(hostname) ==
          if old(FindAuthenticator(hostname)).Some? then old(FindAuthenticator(hostname))
          else if Match(a, hostname) then Some(a)
          else None
      {
        FirstMatchAppend(old(authenticators), a, hostname);
      }
    }

    /** `storeAuthenticator`: appends the record under construction, if there
        is one. */
    method StoreAuthenticator(pending: Option<Authenticator>)
      modifies this
      ensures authenticators == old(authenticators) + Stored(pending)
    {
      if pending.Some? {
        AddAuthenticator(pending.value);
      }
    }

    /** `findAuthenticator`: a read-only lookup returning the earliest record
        that applies to `hostname`, or none when no record applies. */
    function FindAuthenticator(hostname: string): (r: Option<Authenticator>)
      reads this
      ensures r.None? <==> forall i :: 0 <= i < |authenticators| ==> !Match(authenticators[i], hostname)
      ensures r.Some? ==> exists i :: IsFirstMatch(authenticators, hostname, i) && authenticators[i] == r.value
    {
      FirstMatch(authenticators, hostname)
    }

    /** `parse`: reads a netrc file and appends its records to the store, in
        file order, after those already there. `file` is the file's lines, or
        `None` when it cannot be opened. On an error the records finalized
        before it stay in the store and the one under construction is
        dropped. */
    method Parse(file: Option<seq<string>>) returns (err: Option<ParseError>)
      modifies this
      ensures file.None? ==> err == Some(FileAccess) && authenticators == old(authenticators)
      ensures file.Some? ==> err == ParseLines(file.value).err
      ensures file.Some? ==> authenticators == old(authenticators) + ParseLines(file.value).stored
    {
      if file.None? {
        return Some(FileAccess);
      }
      var cur: seq<string>, rest: seq<string> := [], file.value;
      var pending: Option<Authenticator> := None;
      ghost var whole := ParseLines(file.value);
      assert whole == ParseFrom(cur, rest, pending);
      while true
        invariant old(authenticators) + whole.stored == authenticators + ParseFrom(cur, rest, pending).stored
        invariant whole.err == ParseFrom(cur, rest, pending).err
        decreases |rest|, |cur|
      {
        ghost var cur0, rest0, pending0 := cur, rest, pending;
        var next := NextToken(cur, rest);
        if next.None? {
          StoreAuthenticator(pending);
          return None;
        }
        ghost var before := authenticators;
        ghost var step := ParseStep(next.value.token, next.value.cur, next.value.rest, pending);
        ParseFromUnfold(cur, rest, pending);
        err, cur, rest, pending := ParseKeyword(next.value.token, next.value.cur, next.value.rest, pending);
        assert authenticators == before + step.stored;
        if err.Some? {
          return err;
        }
        ghost var tail := ParseFrom(cur, rest, pending).stored;
        assert ParseFrom(cur0, rest0, pending0).stored == step.stored + tail;
        SeqAssoc(before, step.stored, tail);
      }
    }

    /** The body of the `parse` loop for one keyword `token`: finalizes,
        starts or updates the record under construction as `ParseStep` says,
        reading the keyword's value with `getRequiredNextToken`. */
    method ParseKeyword(token: string, cur: seq<string>, rest: seq<string>, pending: Option<Authenticator>)
      returns (err: Option<ParseError>, cur': seq<string>, rest': seq<string>, pending': Option<Authenticator>)
      modifies this
      ensures authenticators == old(authenticators) + ParseStep(token, cur, rest, pending).stored
      ensures ParseStep(token, cur, rest, pending).Stop? ==> err == Some(ParseStep(token, cur, rest, pending).error)
      ensures ParseStep(token, cur, rest, pending).Go? ==>
        err.None? && ParseStep(token, cur, rest, pending) == Go(ParseStep(token, cur, rest, pending).stored, cur', rest', pending')
    {
      err, cur', rest', pending' := None, cur, rest, pending;
      if token == MACHINE {
        StoreAuthenticator(pending);
        var host := NextToken(cur, rest);
        if host.None? {
          return Some(Truncated(MACHINE)), [], [], None;
        }
        pending' := Some(SetMachine(NewAuthenticator(), host.value.token));
        cur', rest' := host.value.cur, host.value.rest;
      } else if token == DEFAULT {
        StoreAuthenticator(pending);
        pending' := Some(NewDefaultAuthenticator());
      } else if IsField(token) {
        if pending.None? {
          return Some(NoEntry(token)), [], [], None;
        }
        var value := NextToken(cur, rest);
        if value.None? {
          return Some(Truncated(token)), [], [], None;
        }
        pending' := Some(SetField(pending.value, token, value.value.token));
        cur', rest' := value.value.cur, value.value.rest;
      } else if token == MACDEF {
        var name := NextToken(cur, rest);
        if name.None? {
          return Some(Truncated(MACDEF)), [], [], None;
        }
        cur', rest' := [], SkipMacdef(name.value.rest);
      } else {
        return Some(UnknownToken(token)), [], [], None;
      }
    }
  }
}
