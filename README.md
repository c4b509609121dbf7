# aria2 netrc credential store, in Dafny

This project models the `.netrc` credential store of aria2, which is declared in
`src/Netrc.h`. It has three parts.

- **Credential records** (module `Authenticators`, `authenticator.dfy`). The
  C++ classes `Authenticator` and `DefaultAuthenticator` become one closed
  datatype with two constructors:
  - `Host(machine, login, password, account)`: a record bound to one machine name.
  - `Default(machine, login, password, account)`: the fallback record.
  `Match` is the two `match` methods. A host record applies to a hostname
  exactly when the hostname equals its machine string. A default record
  applies to every hostname. The getters are the datatype's field selectors.
  The setters are record-update functions.
- **The store** (module `NetrcStore`, `netrc.dfy`). The C++ class `Netrc`
  becomes a Dafny class. Its field `authenticators` is the ordered list
  `_authenticators`.
  - `AddAuthenticator` and `StoreAuthenticator` append to the list.
  - `GetAuthenticators` and `FindAuthenticator` are functions that read the
    object, so they cannot change it.
  - A lookup returns the earliest record that applies (`FirstMatch`).
  - `Parse` reads a file into the store, one keyword at a time.
- **The file format** (modules `NetrcParser`, `NetrcFormat` and
  `NetrcExample`). `NetrcParser` gives the meaning of a file as pure
  functions:
  - `Words` cuts a line into whitespace-separated tokens.
  - `NextToken` is `getRequiredNextToken`. It reads across line boundaries.
  - `SkipMacdef` is `skipMacdef`.
  - `ParseStep` is the effect of one keyword.
  - `ParseFrom` and `ParseLines` are a whole pass over the file.

  The imperative `Netrc.Parse` loop is proved to compute exactly
  `ParseLines`. `NetrcFormat` writes records back as netrc lines and proves
  the round trip: parsing the written lines gives back the records. It also
  proves what each kind of line does. `NetrcExample` works through a
  two-block file with a blank line between the blocks.

The bodies of `parse`, `getRequiredNextToken`, `skipMacdef`,
`storeAuthenticator` and `findAuthenticator` live in `src/Netrc.cc`, which is
not part of this model. The lookup follows the usual netrc rule: the first
record in list order that applies. The parser follows the keyword grammar of
the BSD ftp(1) manual page: `machine <name>`, `default`, `login <v>`,
`password <v>`, `account <v>` and `macdef <name>`. The parser's behaviour
cannot be checked against the header, which only declares these functions.
The rows below that cite line 131, 133, 135 or 139 state that grammar, not
code from the header.

The parser makes these choices:
- A `machine` or `default` keyword stores the record under construction
  first. For `machine` this happens before the host token is read.
- A field keyword with no record under construction is an error. This is
  checked before its value is read.
- A `macdef` reads its name, drops the rest of that line and skips every
  line up to and including the first line that is exactly empty. It is
  accepted with or without a record under construction.
- Any other token is an error.
- On an error, the records stored before it stay in the store and the
  record under construction is dropped.

A default record keeps a machine field, because `DefaultAuthenticator`
inherits `getMachine` and `setMachine` (`src/Netrc.h:81-86`, `:110`). Its
constructors leave that field `A2STR::NIL` (empty), and `Match` never reads
it. Parse errors are `NoEntry`, `Truncated` and `UnknownToken`, so the
contracts can say which one occurs; `FileAccess` is a file that cannot be
opened.

## Model

| member | source | states |
|---|---|---|
| Authenticators.Match | src/Netrc.h:76-124 | The two `match` methods (lines 76-79 and the override at 121-124). A host record applies to a hostname exactly when the hostname equals its machine string. A default record applies to every hostname. |
| Authenticators.NewAuthenticator | src/Netrc.h:63 | The no-argument constructor gives a host record with all four fields empty, which applies only to the empty hostname. |
| Authenticators.MakeAuthenticator | src/Netrc.h:65-72 | Each of the four arguments is stored verbatim in its own field. The record applies to a hostname exactly when the hostname equals the machine argument. |
| Authenticators.NewDefaultAuthenticator | src/Netrc.h:112 | The no-argument default constructor gives a default record with every field empty, which applies to every hostname. |
| Authenticators.MakeDefaultAuthenticator | src/Netrc.h:114-117 | The machine is `NIL` (empty) whatever the caller wants. Login, password and account are stored verbatim. The record applies to every hostname, the empty one included. |
| Authenticators.HostMatchesOneHostname | src/Netrc.h:76-79 | A host record applies to one hostname only, its machine string: two hostnames it applies to are equal to each other and to the machine. |
| Authenticators.HostMatchIsCaseSensitive | src/Netrc.h:76-79 | Matching is plain string equality: a record for `example.com` does not apply to `Example.com` or to `www.example.com`. |
| Authenticators.SetMachine | src/Netrc.h:86 | `setMachine` sets the machine and leaves the other three fields and the kind unchanged. A host record then applies exactly to the new machine; a default record still applies to every hostname. |
| Authenticators.SetLogin | src/Netrc.h:93 | `setLogin` sets the login and leaves the other fields, the kind and the set of matching hostnames unchanged. |
| Authenticators.SetPassword | src/Netrc.h:100 | `setPassword` sets the password and leaves the other fields, the kind and the set of matching hostnames unchanged. |
| Authenticators.SetAccount | src/Netrc.h:107 | `setAccount` sets the account and leaves the other fields, the kind and the set of matching hostnames unchanged. |
| Authenticators.SetterRoundTrips | src/Netrc.h:81-107 | Writing back what a getter returns leaves the record as it was. A second write to the same field overrides the first. |
| NetrcStore.FirstMatch | src/Netrc.h:141-142 | A lookup over a list finds nothing exactly when no record in the list applies to the hostname. When it finds a record, that record sits at the first position whose record applies. |
| NetrcStore.FirstMatchIsUnique | src/Netrc.h:141-142 | Only one position can be the first match, so the record a lookup returns is determined. |
| NetrcStore.DefaultGuaranteesMatch | src/Netrc.h:121-124 | Once a list holds a default record, every lookup succeeds and returns a record that applies. |
| NetrcStore.FirstMatchAppend | src/Netrc.h:149-152 | Appending a record never changes a lookup that already succeeded. A lookup that failed now returns the new record exactly when that record applies. |
| NetrcStore.AppendKeepsHit | src/Netrc.h:141-152 | Appending any list of records after a list in which a lookup succeeds leaves that lookup's result unchanged. |
| NetrcStore.EarlierDuplicateWins | src/Netrc.h:141-142 | The first record added for a machine is returned for that name whatever is appended after it. A later host record for the same machine stays in the list but is never returned, even with other records in between. |
| NetrcStore.Netrc.constructor | src/Netrc.h:137 | A new store is empty. |
| NetrcStore.Netrc.GetAuthenticators | src/Netrc.h:144-147 | Returns the whole list, unreachable duplicates included. As a function it cannot change the store. |
| NetrcStore.Netrc.AddAuthenticator | src/Netrc.h:149-152 | The list `s` becomes `s + [a]`. Its length grows by one, and every earlier entry keeps its position and value. Afterwards a lookup that succeeded before returns the same record, and one that failed returns `a` exactly when `a` applies. After adding a default record every lookup succeeds. |
| NetrcStore.Netrc.StoreAuthenticator | src/Netrc.h:131 | Appends the record under construction if there is one, and otherwise leaves the list unchanged. |
| NetrcStore.Netrc.FindAuthenticator | src/Netrc.h:141-142 | A read-only lookup. It returns nothing exactly when no stored record applies. Otherwise it returns the record at the first position that applies. |
| NetrcStore.Netrc.Parse | src/Netrc.h:139 | A file that cannot be opened gives `FileAccess` and leaves the store unchanged. Otherwise the error is the one `ParseLines` gives for the file's lines, and the store is the old list followed by the records `ParseLines` yields. |
| NetrcStore.Netrc.ParseKeyword | src/Netrc.h:139 | One keyword of the parse loop appends exactly what `ParseStep` finalizes. It then stops with `ParseStep`'s error, or goes on from `ParseStep`'s new read position and record. |
| NetrcParser.NextToken | src/Netrc.h:133 | Reading a token moves the read position strictly forward: fewer lines are left, or as many lines and fewer tokens on the current one. |
| NetrcParser.NextTokenSpec | src/Netrc.h:133 | Reading the next token crosses line boundaries. It fails exactly when no token is left on the current line or on any later line. It returns the first unread token of the current line if there is one. Otherwise it returns the first token of the first later line that has one, every line before that having none, and goes on with the rest of that line and the lines after it. |
| NetrcParser.NextTokenTokens | src/Netrc.h:133 | The value read is always a non-empty run of non-whitespace characters. |
| NetrcParser.WordsAreTokens | src/Netrc.h:133 | Every piece the tokenizer cuts from a line is a non-empty run of non-whitespace characters. |
| NetrcParser.SkipMacdef | src/Netrc.h:135 | Skipping a macro body never adds lines: what is left is no longer than what was there. |
| NetrcParser.SkipMacdefSpec | src/Netrc.h:135 | Skipping a macro body resumes right after the first line that is exactly empty. When no line is empty it consumes the rest of the file. It never resumes earlier. |
| NetrcParser.ParseStep | src/Netrc.h:139 | A keyword step that goes on never moves the read position back. No step reports `FileAccess`. |
| NetrcParser.ParseStepParsable | src/Netrc.h:139 | Every record a step finalizes or starts is one a netrc file can spell, provided the record under construction was. |
| NetrcParser.ParseLines | src/Netrc.h:139 | A parse of the lines in memory never reports `FileAccess`; only a file that cannot be opened does. |
| NetrcParser.ParseLinesParsable | src/Netrc.h:139 | Every record a parse yields has a one-token machine (host) or an empty machine (default), and its other fields are empty or one token. |
| NetrcFormat.ParseFormat | src/Netrc.h:139 | Round trip: the netrc lines written for a list of such records parse back, without error, to exactly that list in the same order, one record per block. |
| NetrcFormat.FormatStep | src/Netrc.h:139 | After the blocks of a non-empty list, every record but the last is finalized and the last is under construction. |
| NetrcFormat.RecordStep | src/Netrc.h:139 | One block stores the record that was under construction and leaves exactly its own record under construction. |
| NetrcFormat.MachineLine | src/Netrc.h:139 | `machine m` stores the record under construction and starts a host record for `m` with the other fields empty. |
| NetrcFormat.NextTokenAfterBlank | src/Netrc.h:133 | Reading the next token passes over any run of lines that hold no token, as if they were not there. |
| NetrcFormat.MachineHostOnLaterLine | src/Netrc.h:133-139 | A `machine` at the end of a line stores the record under construction and takes its host from the first token of the next line that has one. Lines with no token before it are skipped, and the rest of that line is read next. |
| NetrcFormat.DefaultLine | src/Netrc.h:139 | `default` stores the record under construction and starts an empty default record. |
| NetrcFormat.FieldLine | src/Netrc.h:139 | `login v`, `password v` or `account v` sets that one field of the record under construction. |
| NetrcFormat.EmptyLineIgnored | src/Netrc.h:139 | A line with no token changes nothing. |
| NetrcFormat.MacdefIgnored | src/Netrc.h:135-139 | A `macdef` block neither finalizes, starts nor changes a record, whatever its body says. Parsing resumes after the blank line that ends it, with or without a record under construction. |
| NetrcFormat.TruncatedField | src/Netrc.h:133-139 | A file that ends right after a bare `login`, `password` or `account` fails as truncated. The records before the last block are kept and the last one is dropped. |
| NetrcFormat.FieldBeforeEntry | src/Netrc.h:139 | A field keyword read at any position with no record under construction fails with `NoEntry` and stores nothing. This covers a field before the first `machine` or `default`, after blank lines or `macdef` blocks. |
| NetrcFormat.UnknownKeyword | src/Netrc.h:139 | A token that is not a keyword, where a keyword is expected, fails as unknown. The records before the last block are kept and the last one is dropped. |
| NetrcExample.ExampleParses | src/Netrc.h:139 | The file `machine example.com` / `login alice` / `password secret1` / blank / `default` / `login bob` / `password secret2` parses, without error, to the host record and then the default record. |
| NetrcExample.ExampleLookups | src/Netrc.h:141-142 | In that store, `example.com` finds alice's record and every other hostname finds bob's default record. |

## Left out

- File I/O: `parse` opens the file at a path with `std::ifstream`. The model instead takes the file's lines, or `None` when the file cannot be opened. The stream's buffering and any read error after opening are not modelled.
- `src/Netrc.cc` is not part of this model. The lookup order, the parser and the spellings of the six keyword constants (`src/Netrc.h:154-164`) follow the netrc conventions of the BSD ftp(1) manual page. They cannot be checked against the header.
- Authenticators.SetMachine, Authenticators.SetLogin, Authenticators.SetPassword, Authenticators.SetAccount: these are value updates. Records are held through `SharedHandle` in C++, so an in-place change there is seen by every holder of the handle. That aliasing is not modelled.
- `Authenticatable` (`src/Netrc.h:49-54`) is not modelled on its own. It only declares `match`, which `Match` covers for both record kinds.
- Virtual destructors, `SharedHandle` reference counting and C++ exception types are not modelled. The exceptions become the `ParseError` values.
- A line made only of spaces or tabs does not end a `macdef` body. Only a line that is exactly empty does, because the body ends at a line holding only its newline.
