/** Credential records of a netrc file: a record for one named machine, or the
    fallback record introduced by the `default` keyword. */
module Authenticators {

  datatype Option<+T> = None | Some(value: T)

  /** One credential record. The two constructors are the two classes of the
      C++ hierarchy: `Host` is a plain authenticator bound to one machine name,
      `Default` is the fallback. Both carry the four string fields; a `Default`
      record keeps a machine field because it inherits the setter and getter
      for it, but matching never looks at it. */
  datatype Authenticator =
    | Host(machine: string, login: string, password: string, account: string)
    | Default(machine: string, login: string, password: string, account: string)

  /** Does this record apply to `hostname`? A host record needs the hostname
      to be exactly its machine string; a default record applies to all. */
  function Match(a: Authenticator, hostname: string): (r: bool)
    ensures a.Host? ==> (r <==> hostname == a.machine)
    ensures a.Default? ==> r
  {
    match a
    case Host(machine, _, _, _) => hostname == machine
    case Default(_, _, _, _) => true
  }

  /** The empty string the C++ code spells `A2STR::NIL`. */
  const NIL: string := ""

  /** `Authenticator()`: every field empty, so it applies only to the empty hostname. */
  function NewAuthenticator(): (r: Authenticator)
    ensures r.Host?
    ensures r.machine == NIL && r.login == NIL && r.password == NIL && r.account == NIL
    ensures forall h :: Match(r, h) <==> h == NIL
  {
    Host(NIL, NIL, NIL, NIL)
  }

  /** `Authenticator(machine, login, password, account)`: each argument is kept
      verbatim, and the record applies to exactly one hostname, `machine`. */
  function MakeAuthenticator(machine: string, login: string, password: string, account: string): (r: Authenticator)
    ensures r.Host?
    ensures r.machine == machine && r.login == login && r.password == password && r.account == account
    ensures forall h :: Match(r, h) <==> h == machine
  {
    Host(machine, login, password, account)
  }

  /** `DefaultAuthenticator()`: every field empty, and it applies to every hostname. */
  function NewDefaultAuthenticator(): (r: Authenticator)
    ensures r.Default?
    ensures r.machine == NIL && r.login == NIL && r.password == NIL && r.account == NIL
    ensures forall h :: Match(r, h)
  {
    Default(NIL, NIL, NIL, NIL)
  }

  /** `DefaultAuthenticator(login, password, account)`: the machine is empty
      whatever the caller wants, the other three are kept verbatim, and it
      applies to every hostname, the empty one included. */
  function MakeDefaultAuthenticator(login: string, password: string, account: string): (r: Authenticator)
    ensures r.Default?
    ensures r.machine == NIL && r.login == login && r.password == password && r.account == account
    ensures forall h :: Match(r, h)
  {
    Default(NIL, login, password, account)
  }

  /** `setMachine`: replaces the machine and nothing else. For a host record
      this moves the one hostname it applies to; a default record still
      applies to every hostname. */
  function SetMachine(a: Authenticator, machine: string): (r: Authenticator)
    ensures r.machine == machine
    ensures r.login == a.login && r.password == a.password && r.account == a.account
    ensures r.Default? <==> a.Default?
    ensures forall h :: Match(r, h) <==> a.Default? || h == machine
  {
    a.(machine := machine)
  }

  /** `setLogin`: replaces the login and nothing else; which hostnames the
      record applies to does not change. */
  function SetLogin(a: Authenticator, login: string): (r: Authenticator)
    ensures r.login == login
    ensures r.machine == a.machine && r.password == a.password && r.account == a.account
    ensures r.Default? <==> a.Default?
    ensures forall h :: Match(r, h) <==> Match(a, h)
  {
    a.(login := login)
  }

  /** `setPassword`: replaces the password and nothing else. */
  function SetPassword(a: Authenticator, password: string): (r: Authenticator)
    ensures r.password == password
    ensures r.machine == a.machine && r.login == a.login && r.account == a.account
    ensures r.Default? <==> a.Default?
    ensures forall h :: Match(r, h) <==> Match(a, h)
  {
    a.(password := password)
  }

  /** `setAccount`: replaces the account and nothing else. */
  function SetAccount(a: Authenticator, account: string): (r: Authenticator)
    ensures r.account == account
    ensures r.machine == a.machine && r.login == a.login && r.password == a.password
    ensures r.Default? <==> a.Default?
    ensures forall h :: Match(r, h) <==> Match(a, h)
  {
    a.(account := account)
  }

  /** Matching is plain string equality: a host record applies to one
      hostname only, so two hostnames it applies to are the same string
      (no case folding, no wildcard, no suffix match). */
  lemma HostMatchesOneHostname(a: Authenticator, h1: string, h2: string)
    requires a.Host?
    requires Match(a, h1) && Match(a, h2)
    ensures h1 == h2 == a.machine
  {
  }

  /** A host record for a name does not apply to the same name in another
      case, nor to a subdomain of it. */
  lemma HostMatchIsCaseSensitive()
    ensures Match(MakeAuthenticator("example.com", "u", "p", ""), "example.com")
    ensures !Match(MakeAuthenticator("example.com", "u", "p", ""), "Example.com")
    ensures !Match(MakeAuthenticator("example.com", "u", "p", ""), "www.example.com")
  {
    assert "Example.com"[0] != "example.com"[0];
  }

  /** A setter that writes back the value its getter returns leaves the record
      as it was, and a second write to the same field overrides the first. */
  lemma SetterRoundTrips(a: Authenticator, x: string, y: string)
    ensures SetMachine(a, a.machine) == a && SetLogin(a, a.login) == a
    ensures SetPassword(a, a.password) == a && SetAccount(a, a.account) == a
    ensures SetMachine(SetMachine(a, x), y) == SetMachine(a, y)
    ensures SetLogin(SetLogin(a, x), y) == SetLogin(a, y)
    ensures SetPassword(SetPassword(a, x), y) == SetPassword(a, y)
    ensures SetAccount(SetAccount(a, x), y) == SetAccount(a, y)
  {
  }
}
