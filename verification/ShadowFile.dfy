/** The shadow file: one `name:hash` line per user. Loading skips what it cannot read, so the
    question is which states a written file gives back. Text is a sequence of Unicode scalar
    values; the file itself is its text. */
module ShadowFile {
  import opened Prelude
  import opened Credentials
  import opened Text

  // ---- The string operations the loader uses ----------------------------------------------

  /** The characters with the Unicode property White_Space. */
  predicate IsWhitespace(c: char) {
    var n := c as int;
    || 0x09 <= n <= 0x0D || n == 0x20 || n == 0x85 || n == 0xA0 || n == 0x1680
    || 0x2000 <= n <= 0x200A || n == 0x2028 || n == 0x2029 || n == 0x202F || n == 0x205F || n == 0x3000
  }

  /** The part before the first `c`, or all of it. */
  function Before(s: string, c: char): string {
    match SplitOnce(s, c)
    case Some((before, _)) => before
    case None => s
  }

  function StripReturn(line: string): string {
    if line != "" && line[|line| - 1] == '\r' then line[..|line| - 1] else line
  }

  /** `str::lines`: a line ends with "\n" or "\r\n", and the last one need not. */
  function Lines(s: string): seq<string>
    decreases |s|
  {
    if s == "" then []
    else
      match SplitOnce(s, '\n')
      case None => [s]
      case Some((line, rest)) => [StripReturn(line)] + Lines(rest)
  }

  // ---- Loading and writing -----------------------------------------------------------------

  /** The user and hash of one line, if the loader accepts it. */
  function ParseLine(line: string): Option<(string, string)> {
    match SplitOnce(Trim(line, IsWhitespace), ':')
    case None => None
    case Some((username, rest)) =>
      var hash := Before(rest, ':');
      if username == "" || hash == "" || hash[0] != '$' then None else Some((username, hash))
  }

  function AddLine(users: Users, line: string): Users {
    match ParseLine(line)
    case None => users
    case Some((username, hash)) => users[username := Sha512Crypt(hash)]
  }

  function AddLines(users: Users, lines: seq<string>): Users
    decreases lines
  {
    if lines == [] then users else AddLines(AddLine(users, lines[0]), lines[1..])
  }

  function Loaded(content: string): Users {
    AddLines(map[], Lines(content))
  }

  method Load(content: string) returns (users: Users)
    ensures users == Loaded(content)
  {
    users := map[];
    var lines := Lines(content);
    var i := 0;
    while i < |lines|
      invariant i <= |lines|
      invariant AddLines(users, lines[i..]) == Loaded(content)
    {
      assert lines[i..][0] == lines[i] && lines[i..][1..] == lines[i + 1..];
      var line := Trim(lines[i], IsWhitespace);
      i := i + 1;
      if line == "" {
        continue;
      }
      match SplitOnce(line, ':')
      case None =>
      case Some((username, rest)) =>
        if username != "" {
          var hash := rest;
          match SplitOnce(rest, ':') {
            case Some((h, _)) => hash := h;
            case None =>
          }
          if hash == "" || hash[0] != '$' {
            continue;
          }
          users := users[username := Sha512Crypt(hash)];
        }
    }
  }

  /** A salted hash of each plaintext password, or `None` where hashing fails. */
  type Hasher = string -> Option<string>

  predicate Hashable(users: Users, hasher: Hasher) {
    forall u :: u in users && users[u].Plaintext? ==> hasher(u).Some?
  }

  function HashOf(users: Users, hasher: Hasher, u: string): string
    requires u in users
  {
    match users[u]
    case Sha512Crypt(hash) => hash
    case Plaintext(_) =>
      match hasher(u)
      case Some(hash) => hash
      case None => ""
  }

  /** The hash that is written for each user; nothing is written unless all can be hashed. */
  function Stored(users: Users, hasher: Hasher): map<string, string> {
    map u | u in users :: HashOf(users, hasher, u)
  }

  function Line(username: string, hash: string): string {
    username + [':'] + hash
  }

  function Print(stored: map<string, string>, order: seq<string>): string
    requires forall u :: u in order ==> u in stored
  {
    if order == [] then ""
    else
      assert forall u :: u in order[1..] ==> u in order;
      Line(order[0], stored[order[0]]) + ['\n'] + Print(stored, order[1..])
  }

  /** An order in which the users may be visited. */
  ghost predicate Enumerates(order: seq<string>, users: set<string>) {
    && (forall u :: u in order <==> u in users)
    && (forall i, j :: 0 <= i < j < |order| ==> order[i] != order[j])
  }

  lemma {:induction false} PrintSnoc(stored: map<string, string>, order: seq<string>, u: string)
    requires u in stored && forall v :: v in order ==> v in stored
    ensures Print(stored, order + [u]) == Print(stored, order) + Line(u, stored[u]) + ['\n']
  {
    if order == [] {
      assert [u][1..] == [];
    } else {
      assert (order + [u])[1..] == order[1..] + [u];
      forall v | v in order[1..] ensures v in stored { assert v in order; }
      PrintSnoc(stored, order[1..], u);
    }
  }

  lemma EnumeratesSnoc(order: seq<string>, users: set<string>, u: string)
    requires Enumerates(order, users) && u !in users
    ensures Enumerates(order + [u], users + {u})
  {
  }

  /** Writes the users in an order of its own choosing; fails when a password cannot be hashed. */
  method Write(users: Users, hasher: Hasher) returns (content: Result<string, string>)
    ensures content.Success? <==> Hashable(users, hasher)
    ensures content.Success? ==>
              exists order :: Enumerates(order, users.Keys) && content.value == Print(Stored(users, hasher), order)
  {
    var text := "";
    var left := users.Keys;
    ghost var order: seq<string> := [];
    while left != {}
      invariant left <= users.Keys
      invariant Enumerates(order, users.Keys - left)
      invariant forall u :: u in order && users[u].Plaintext? ==> hasher(u).Some?
      invariant text == Print(Stored(users, hasher), order)
      decreases |left|
    {
      var u :| u in left;
      left := left - {u};
      var hash;
      match users[u] {
        case Sha512Crypt(h) =>
          hash := h;
        case Plaintext(_) =>
          var hashed := hasher(u);
          if hashed.None? {
            return Failure("cannot hash password");
          }
          hash := hashed.value;
      }
      PrintSnoc(Stored(users, hasher), order, u);
      text := text + (u + [':'] + hash) + ['\n'];
      EnumeratesSnoc(order, users.Keys - left - {u}, u);
      order := order + [u];
    }
    content := Success(text);
  }

  // ---- Which states survive ------------------------------------------------------------------

  predicate NameOk(u: string) {
    u != "" && ':' !in u && '\n' !in u && !IsWhitespace(u[0])
  }

  /** A hash that the loader accepts, up to white space at its end. */
  predicate HashAccepted(h: string) {
    h != "" && h[0] == '$' && ':' !in h && '\n' !in h
  }

  predicate EndsClean(h: string) {
    h == "" || !IsWhitespace(h[|h| - 1])
  }

  /** The user comes back from its own line exactly as it was written. */
  predicate Storable(u: string, h: string) {
    NameOk(u) && HashAccepted(h) && EndsClean(h)
  }

  /** White space at the end of the second part is all that trimming can reach. */
  lemma {:induction false} TrimEndConcat(a: string, b: string)
    requires TrimEnd(b, IsWhitespace) != ""
    ensures TrimEnd(a + b, IsWhitespace) == a + TrimEnd(b, IsWhitespace)
  {
    if IsWhitespace(b[|b| - 1]) {
      assert (a + b)[..|a + b| - 1] == a + b[..|b| - 1];
      TrimEndConcat(a, b[..|b| - 1]);
    }
  }

  lemma {:induction false} TrimEndKeepsHead(h: string)
    requires h != "" && !IsWhitespace(h[0])
    ensures TrimEnd(h, IsWhitespace) != ""
  {
    if |h| > 1 && IsWhitespace(h[|h| - 1]) {
      TrimEndKeepsHead(h[..|h| - 1]);
    }
  }

  /** The carriage return that `Lines` strips would have been trimmed. */
  lemma TrimEndReturn(h: string)
    requires HashAccepted(h)
    ensures TrimEnd(StripReturn(h), IsWhitespace) == TrimEnd(h, IsWhitespace) && HashAccepted(StripReturn(h))
  {
  }

  /** One line is read back as its user, with the hash trimmed at its end. */
  lemma ParseLineOfLine(u: string, h: string)
    requires NameOk(u) && HashAccepted(h)
    ensures ParseLine(Line(u, h)) == Some((u, TrimEnd(h, IsWhitespace)))
  {
    TrimEndKeepsHead(h);
    TrimEndConcat(u + [':'], h);
    var t := TrimEnd(h, IsWhitespace);
    assert TrimStart(Line(u, h), IsWhitespace) == Line(u, h);
    SplitOnceAt(u, ':', t);
    assert t <= h && ':' !in t;
    SplitOnceNone(t, ':');
  }

  lemma LinesOfLine(u: string, h: string, rest: string)
    requires NameOk(u) && HashAccepted(h)
    ensures Lines(Line(u, h) + ['\n'] + rest) == [Line(u, StripReturn(h))] + Lines(rest)
  {
    SplitOnceAt(Line(u, h), '\n', rest);
    assert StripReturn(Line(u, h)) == Line(u, StripReturn(h));
  }

  /** The users of `order` with their hashes trimmed. */
  function Reloaded(stored: map<string, string>, order: seq<string>): Users
    requires forall u :: u in order ==> u in stored
  {
    map u | u in order :: Sha512Crypt(TrimEnd(stored[u], IsWhitespace))
  }

  lemma AddFirstLine(users: Users, u: string, h: string, rest: string)
    requires NameOk(u) && HashAccepted(h)
    ensures AddLines(users, Lines(Line(u, h) + ['\n'] + rest)) ==
            AddLines(users[u := Sha512Crypt(TrimEnd(h, IsWhitespace))], Lines(rest))
  {
    LinesOfLine(u, h, rest);
    TrimEndReturn(h);
    ParseLineOfLine(u, StripReturn(h));
    var lines := [Line(u, StripReturn(h))] + Lines(rest);
    assert lines[1..] == Lines(rest);
  }

  lemma ReloadedFirst(users: Users, stored: map<string, string>, order: seq<string>)
    requires order != [] && forall u :: u in order ==> u in stored
    requires forall u :: u in order[1..] ==> u in stored
    ensures users[order[0] := Sha512Crypt(TrimEnd(stored[order[0]], IsWhitespace))] + Reloaded(stored, order[1..]) ==
            users + Reloaded(stored, order)
  {
    assert forall u :: u in order <==> u == order[0] || u in order[1..];
  }

  lemma {:induction false} AddLinesOfPrint(users: Users, stored: map<string, string>, order: seq<string>)
    requires forall u :: u in order ==> u in stored && NameOk(u) && HashAccepted(stored[u])
    ensures AddLines(users, Lines(Print(stored, order))) == users + Reloaded(stored, order)
    decreases order
  {
    if order != [] {
      var (u, rest) := (order[0], order[1..]);
      forall v | v in rest ensures v in stored && NameOk(v) && HashAccepted(stored[v]) { assert v in order; }
      AddFirstLine(users, u, stored[u], Print(stored, rest));
      AddLinesOfPrint(users[u := Sha512Crypt(TrimEnd(stored[u], IsWhitespace))], stored, rest);
      ReloadedFirst(users, stored, order);
    }
  }

  /** What a file gives, whatever is in it. */
  ghost predicate AllAccepted(users: Users) {
    forall u :: u in users ==> users[u].Sha512Crypt? && NameOk(u) && HashAccepted(users[u].hash)
  }

  lemma {:induction false} LinesHaveNoBreak(s: string)
    ensures forall line :: line in Lines(s) ==> '\n' !in line
    decreases |s|
  {
    if s != "" {
      match SplitOnce(s, '\n')
      case None =>
      case Some((_, rest)) => LinesHaveNoBreak(rest);
    }
  }

  lemma ParsedIsAccepted(line: string)
    requires '\n' !in line && ParseLine(line).Some?
    ensures NameOk(ParseLine(line).value.0) && HashAccepted(ParseLine(line).value.1)
  {
    var t := Trim(line, IsWhitespace);
    assert t <= TrimStart(line, IsWhitespace);
    assert forall c :: c in t ==> c in line;
    var (u, rest) := SplitOnce(t, ':').value;
    assert u[0] == t[0] == TrimStart(line, IsWhitespace)[0];
    var h := Before(rest, ':');
    assert h <= rest;
    assert forall c :: c in u || c in h ==> c in t;
  }

  lemma {:induction false} AddLinesAccepts(users: Users, lines: seq<string>)
    requires AllAccepted(users) && forall line :: line in lines ==> '\n' !in line
    ensures AllAccepted(AddLines(users, lines))
    decreases lines
  {
    if lines != [] {
      assert lines[0] in lines;
      forall line | line in lines[1..] ensures '\n' !in line { assert line in lines; }
      if ParseLine(lines[0]).Some? {
        ParsedIsAccepted(lines[0]);
      }
      AddLinesAccepts(AddLine(users, lines[0]), lines[1..]);
    }
  }

  lemma LoadedIsAccepted(content: string)
    ensures AllAccepted(Loaded(content))
  {
    LinesHaveNoBreak(content);
    AddLinesAccepts(map[], Lines(content));
  }

  function Crypts(stored: map<string, string>): Users {
    map u | u in stored :: Sha512Crypt(stored[u])
  }

  ghost predicate AllStorable(stored: map<string, string>) {
    forall u :: u in stored ==> Storable(u, stored[u])
  }

  lemma ReloadedOfStorable(stored: map<string, string>, order: seq<string>)
    requires (forall u :: u in order <==> u in stored) && AllStorable(stored)
    ensures Reloaded(stored, order) == Crypts(stored)
  {
    forall u | u in stored ensures TrimEnd(stored[u], IsWhitespace) == stored[u] {
      assert Storable(u, stored[u]);
    }
  }

  lemma NothingBefore(users: Users)
    ensures map[] + users == users
  {
  }

  lemma StorableComesBack(stored: map<string, string>, order: seq<string>)
    requires Enumerates(order, stored.Keys) && AllStorable(stored)
    ensures Loaded(Print(stored, order)) == Crypts(stored)
  {
    forall u | u in order ensures NameOk(u) && HashAccepted(stored[u]) {
      assert Storable(u, stored[u]);
    }
    AddLinesOfPrint(map[], stored, order);
    ReloadedOfStorable(stored, order);
    NothingBefore(Crypts(stored));
  }

  lemma WhatComesBackIsStorable(stored: map<string, string>, order: seq<string>)
    requires Enumerates(order, stored.Keys) && Loaded(Print(stored, order)) == Crypts(stored)
    ensures AllStorable(stored)
  {
    var loaded := Crypts(stored);
    LoadedIsAccepted(Print(stored, order));
    forall u | u in stored ensures NameOk(u) && HashAccepted(stored[u]) {
      assert u in loaded && loaded[u] == Sha512Crypt(stored[u]);
    }
    AddLinesOfPrint(map[], stored, order);
    NothingBefore(Reloaded(stored, order));
    forall u | u in stored ensures EndsClean(stored[u]) {
      assert loaded[u] == Reloaded(stored, order)[u];
    }
  }

  /** A file written in any order is read back as the state that was written exactly when every
      user is storable. */
  lemma RoundTripIff(stored: map<string, string>, order: seq<string>)
    requires Enumerates(order, stored.Keys)
    ensures Loaded(Print(stored, order)) == Crypts(stored) <==> AllStorable(stored)
  {
    if AllStorable(stored) {
      StorableComesBack(stored, order);
    } else if Loaded(Print(stored, order)) == Crypts(stored) {
      WhatComesBackIsStorable(stored, order);
    }
  }

  // ---- What validates afterwards ---------------------------------------------------------------

  /** The hash verifies its own password and no other. */
  ghost predicate CorrectHash(verify: Verifier, password: string, hash: string) {
    forall p :: verify(p, hash) <==> p == password
  }

  ghost predicate HashesCorrectly(users: Users, hasher: Hasher, verify: Verifier) {
    && Hashable(users, hasher)
    && (forall u :: u in users && users[u].Plaintext? ==> CorrectHash(verify, users[u].password, hasher(u).value))
  }

  ghost predicate SameValidation(users: Users, others: Users, verify: Verifier) {
    forall u, p :: Validate(users, verify, u, p) == Validate(others, verify, u, p)
  }

  lemma StoredValidates(users: Users, hasher: Hasher, verify: Verifier)
    requires HashesCorrectly(users, hasher, verify)
    ensures SameValidation(users, Crypts(Stored(users, hasher)), verify)
  {
    forall u, p ensures Validate(users, verify, u, p) == Validate(Crypts(Stored(users, hasher)), verify, u, p) {
      if u in users && users[u].Plaintext? {
        assert CorrectHash(verify, users[u].password, hasher(u).value);
      }
    }
  }

  /** The hash has the shape of a crypt string. */
  predicate WellFormedHash(h: string) {
    HashAccepted(h) && EndsClean(h)
  }

  /** Every configured user knows a password. */
  ghost predicate EveryoneCanLogIn(users: Users, verify: Verifier) {
    forall u :: u in users ==> exists p :: Validate(users, verify, u, p)
  }

  /** A user whose name the file cannot carry is locked out by the round trip. */
  lemma UnstorableNameIsLost(content: string, verify: Verifier, u: string, p: string)
    requires !NameOk(u)
    ensures !Validate(Loaded(content), verify, u, p)
  {
    LoadedIsAccepted(content);
  }

  /** Loading what was written, in any order, lets in exactly the same users with exactly the same
      passwords, precisely when every name is one the file can carry. */
  lemma ValidatesTheSameIff(users: Users, hasher: Hasher, verify: Verifier, order: seq<string>)
    requires HashesCorrectly(users, hasher, verify) && EveryoneCanLogIn(users, verify)
    requires Enumerates(order, users.Keys)
    requires forall u :: u in users ==> WellFormedHash(HashOf(users, hasher, u))
    ensures SameValidation(users, Loaded(Print(Stored(users, hasher), order)), verify) <==>
            forall u :: u in users ==> NameOk(u)
  {
    var loaded := Loaded(Print(Stored(users, hasher), order));
    if forall u :: u in users ==> NameOk(u) {
      StoredValidates(users, hasher, verify);
      StorableComesBack(Stored(users, hasher), order);
    } else {
      var u :| u in users && !NameOk(u);
      var p :| Validate(users, verify, u, p);
      UnstorableNameIsLost(Print(Stored(users, hasher), order), verify, u, p);
    }
  }

  /** Reloading a file that was written from a loaded one gives the same state exactly when no
      loaded hash ends in white space, which only a further `:` after it lets through. */
  lemma ReloadIff(content: string, order: seq<string>)
    requires Enumerates(order, Loaded(content).Keys)
    ensures var users := Loaded(content);
            AllAccepted(users) &&
            (Loaded(Print(map u | u in users :: users[u].hash, order)) == users <==>
             forall u :: u in users ==> EndsClean(users[u].hash))
  {
    LoadedIsAccepted(content);
    var users := Loaded(content);
    var stored := map u | u in users :: users[u].hash;
    assert Crypts(stored) == users;
    RoundTripIff(stored, order);
    assert AllStorable(stored) <==> forall u :: u in users ==> EndsClean(users[u].hash);
  }

  /** Such a file exists: the space before the second `:` is kept by the first load... */
  lemma LoadKeepsSpace()
    ensures ParseLine("u:$x :") == Some(("u", "$x "))
  {
    var text := "u:$x :";
    assert TrimStart(text, IsWhitespace) == text && TrimEnd(text, IsWhitespace) == text;
    assert text == "u" + [':'] + "$x :";
    SplitOnceAt("u", ':', "$x :");
    assert "$x :" == "$x " + [':'] + "";
    SplitOnceAt("$x ", ':', "");
  }

  /** ...and lost by the second. */
  lemma ReloadLosesSpace()
    ensures ParseLine(Line("u", "$x ")) == Some(("u", "$x"))
  {
    var hash := "$x ";
    ParseLineOfLine("u", hash);
    assert hash[..2] == "$x";
  }

  // ---- Files that were written by hand -----------------------------------------------------------

  /** The twenty-five characters of the property. */
  lemma WhitespaceIs(c: char)
    ensures IsWhitespace(c) <==>
            c as int in {9, 10, 11, 12, 13, 32, 133, 160, 5760, 8192, 8193, 8194, 8195, 8196, 8197, 8198, 8199, 8200,
                         8201, 8202, 8232, 8233, 8239, 8287, 12288}
  {
  }

  predicate AllBlank(s: string) {
    forall c :: c in s ==> IsWhitespace(c)
  }

  lemma {:induction false} TrimStartBlank(before: string, s: string)
    requires AllBlank(before) && s != "" && !IsWhitespace(s[0])
    ensures TrimStart(before + s, IsWhitespace) == s
  {
    if before == "" {
      assert before + s == s;
    } else {
      assert before[0] in before && forall c :: c in before[1..] ==> c in before;
      assert (before + s)[1..] == before[1..] + s;
      TrimStartBlank(before[1..], s);
    }
  }

  lemma {:induction false} TrimEndBlank(s: string, after: string)
    requires AllBlank(after)
    ensures TrimEnd(s + after, IsWhitespace) == TrimEnd(s, IsWhitespace)
  {
    if after == "" {
      assert s + after == s;
    } else {
      var init := after[..|after| - 1];
      assert after[|after| - 1] in after && forall c :: c in init ==> c in after;
      assert (s + after)[..|s + after| - 1] == s + init;
      TrimEndBlank(s, init);
    }
  }

  /** A line with blanks around it and perhaps further fields: the user is read with its hash, which is
      trimmed at its end only when no field follows. */
  lemma ParseFields(before: string, u: string, h: string, more: string, after: string)
    requires AllBlank(before) && AllBlank(after) && NameOk(u) && HashAccepted(h)
    requires more == "" || more[0] == ':'
    ensures ParseLine(before + (u + [':'] + (h + more) + after)) ==
            Some((u, if more == "" then TrimEnd(h, IsWhitespace) else h))
  {
    var fields := u + [':'] + (h + more);
    TrimStartBlank(before, fields + after);
    TrimEndBlank(fields, after);
    TrimEndKeepsHead(h + more);
    TrimEndConcat(u + [':'], h + more);
    SplitOnceAt(u, ':', TrimEnd(h + more, IsWhitespace));
    HashOfFields(h, more);
  }

  lemma HashOfFields(h: string, more: string)
    requires HashAccepted(h) && (more == "" || more[0] == ':')
    ensures var rest := TrimEnd(h + more, IsWhitespace);
            Before(rest, ':') == (if more == "" then TrimEnd(h, IsWhitespace) else h)
            && Before(rest, ':') != "" && Before(rest, ':')[0] == '$'
  {
    if more == "" {
      TrimEndKeepsHead(h);
      assert h + more == h;
      assert ':' !in TrimEnd(h, IsWhitespace);
      SplitOnceNone(TrimEnd(h, IsWhitespace), ':');
    } else {
      TrimEndKeepsHead(more);
      TrimEndConcat(h, more);
      var kept := TrimEnd(more, IsWhitespace);
      assert h + kept == h + [':'] + kept[1..];
      SplitOnceAt(h, ':', kept[1..]);
    }
  }

  /** What the last line for this user says. */
  function LastHash(lines: seq<string>, u: string): Option<string> {
    if lines == [] then None
    else
      match ParseLine(lines[|lines| - 1])
      case Some((name, hash)) => (if name == u then Some(hash) else LastHash(lines[..|lines| - 1], u))
      case None => LastHash(lines[..|lines| - 1], u)
  }

  lemma {:induction false} AddLinesSnoc(users: Users, lines: seq<string>, line: string)
    ensures AddLines(users, lines + [line]) == AddLine(AddLines(users, lines), line)
    decreases lines
  {
    if lines == [] {
      assert [line][1..] == [] && [] + [line] == [line];
    } else {
      assert (lines + [line])[1..] == lines[1..] + [line];
      AddLinesSnoc(AddLine(users, lines[0]), lines[1..], line);
    }
  }

  /** Of several lines for one user the last one counts, and lines that cannot be read change nothing. */
  lemma {:induction false} LastLineWins(lines: seq<string>, u: string)
    ensures var users := AddLines(map[], lines);
            match LastHash(lines, u)
            case Some(hash) => u in users && users[u] == Sha512Crypt(hash)
            case None => u !in users
    decreases lines
  {
    if lines != [] {
      var (init, line) := (lines[..|lines| - 1], lines[|lines| - 1]);
      assert lines == init + [line];
      AddLinesSnoc(map[], init, line);
      LastLineWins(init, u);
    }
  }
}
