/** A worked netrc file: one host block, a blank line, and a default block. */
module NetrcExample {
  import opened Authenticators
  import opened NetrcParser
  import opened NetrcFormat
  import opened NetrcStore

  const ExampleLines: seq<string> := [
    "machine example.com", "login alice", "password secret1", "",
    "default", "login bob", "password secret2"
  ]

  const ExampleHost: Authenticator := Host("example.com", "alice", "secret1", NIL)
  const ExampleDefault: Authenticator := Default(NIL, "bob", "secret2", NIL)

  /** The file parses, without error, to its two records in file order; the
      blank line between the blocks changes nothing. */
  lemma ExampleParses()
    ensures ParseLines(ExampleLines) == Outcome([ExampleHost, ExampleDefault], None)
  {
    var tail := [NIL] + (RecordLines(ExampleDefault) + []);
    ExampleIsFormatted();
    BlankThenLastBlock(ExampleHost, ExampleDefault);
    FormatThen([ExampleHost], tail, Outcome([ExampleHost, ExampleDefault], None));
  }

  /** The file is the block of the host record, a blank line and the block
      of the default record. */
  lemma ExampleIsFormatted()
    ensures Parsable(ExampleHost) && Parsable(ExampleDefault)
    ensures ExampleLines == Format([ExampleHost]) + ([NIL] + (RecordLines(ExampleDefault) + []))
  {
    assert IsToken("example.com") && IsToken("alice") && IsToken("secret1");
    assert IsToken("bob") && IsToken("secret2");
    ExampleBlocks();
    assert [ExampleHost][..0] == [];
    assert Format([ExampleHost]) == RecordLines(ExampleHost);
  }

  /** After a block, a blank line and the block of a last record `a`
      finalize the record under construction and then `a`. */
  lemma BlankThenLastBlock(p: Authenticator, a: Authenticator)
    requires Parsable(a)
    ensures ParseFrom([], [NIL] + (RecordLines(a) + []), Some(p)) == Outcome([p, a], None)
  {
    assert Words(NIL) == [];
    EmptyLineIgnored(NIL, RecordLines(a) + [], Some(p));
    RecordStep(a, [], Some(p));
  }

  /** The blocks of the two records are the lines of the file around the
      blank line. */
  lemma ExampleBlocks()
    ensures RecordLines(ExampleHost) == ["machine example.com", "login alice", "password secret1"]
    ensures RecordLines(ExampleDefault) + [] == ["default", "login bob", "password secret2"]
  {
    assert MACHINE + " " + "example.com" == "machine example.com";
    assert |"alice"| > 0 && LOGIN + " " + "alice" == "login alice";
    assert |"secret1"| > 0 && PASSWORD + " " + "secret1" == "password secret1";
    assert |"bob"| > 0 && LOGIN + " " + "bob" == "login bob";
    assert |"secret2"| > 0 && PASSWORD + " " + "secret2" == "password secret2";
    assert FieldLines(ACCOUNT, NIL) == [];
  }

  /** A lookup of the host's name finds the host record; any other name
      falls back to the default record. */
  lemma ExampleLookups(hostname: string)
    ensures FirstMatch([ExampleHost, ExampleDefault], "example.com") == Some(ExampleHost)
    ensures hostname != "example.com" ==> FirstMatch([ExampleHost, ExampleDefault], hostname) == Some(ExampleDefault)
  {
  }
}
