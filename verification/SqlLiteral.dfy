/** String literals in the ClickHouse backup and restore statements. */
module SqlLiteral {
  import opened Common

  const QUOTE := '\''
  const BACKSLASH := '\\'

  /******* Printing *******/

  /** Replaces every occurrence of a one-character string. */
  function ReplaceAll(s: string, what: char, with: string): string {
    if s == [] then [] else (if s[0] == what then with else [s[0]]) + ReplaceAll(s[1..], what, with)
  }

  /** Backslashes first: those that escape a quote must not be doubled. */
  function QuoteSqlString(value: string): string {
    var doubled := ReplaceAll(value, BACKSLASH, [BACKSLASH, BACKSLASH]);
    var escaped := ReplaceAll(doubled, QUOTE, [BACKSLASH, QUOTE]);
    [QUOTE] + escaped + [QUOTE]
  }

  function Statement(verb: string, url: string, accessKey: string, secretKey: string): string {
    verb + QuoteSqlString(url) + ", " + QuoteSqlString(accessKey) + ", " + QuoteSqlString(secretKey) + ")"
  }

  const BACKUP := "BACKUP ALL TO S3("
  const RESTORE := "RESTORE ALL FROM S3("

  /******* The address of the backup *******/

  datatype ObjectStorage =
    ObjectStorage(endpoint: string, bucket: string, accessKey: string, secretKey: string, ssl: bool)

  /** A parsed address; `rest` is whatever else the URL library keeps. */
  datatype Address = Address(scheme: string, host: string, path: string, rest: string)

  /** The URL library: parsing may fail, printing does not. */
  datatype Library = Library(parse: string -> Option<Address>, render: Address -> string)

  /** `unicode.IsSpace`. */
  predicate IsSpace(c: char) {
    || '\t' <= c <= '\r' || c == ' ' || c == '\U{85}' || c == '\U{A0}' || c == '\U{1680}'
    || '\U{2000}' <= c <= '\U{200A}' || c == '\U{2028}' || c == '\U{2029}' || c == '\U{202F}'
    || c == '\U{205F}' || c == '\U{3000}'
  }

  function TrimLeft(s: string, cut: char -> bool): (r: string)
    ensures |r| <= |s| && r == s[|s| - |r|..] && forall k :: 0 <= k < |s| - |r| ==> cut(s[k])
    ensures r == [] || !cut(r[0])
  {
    if s != [] && cut(s[0]) then TrimLeft(s[1..], cut) else s
  }

  function TrimRight(s: string, cut: char -> bool): (r: string)
    ensures r <= s && forall k :: |r| <= k < |s| ==> cut(s[k])
    ensures r == [] || !cut(r[|r| - 1])
  {
    if s != [] && cut(s[|s| - 1]) then TrimRight(s[..|s| - 1], cut) else s
  }

  predicate IsSlash(c: char) {
    c == '/'
  }

  function WithoutSlashes(s: string): string {
    TrimRight(TrimLeft(s, IsSlash), IsSlash)
  }

  function Endpoint(storage: ObjectStorage): string {
    TrimRight(TrimRight(TrimLeft(storage.endpoint, IsSpace), IsSpace), IsSlash)
  }

  predicate HasScheme(s: string) {
    exists i :: 0 <= i < |s| && "://" <= s[i..]
  }

  function FullEndpoint(storage: ObjectStorage): string {
    if HasScheme(Endpoint(storage)) then Endpoint(storage)
    else (if storage.ssl then "https://" else "http://") + Endpoint(storage)
  }

  function JoinNonEmpty(segments: seq<string>): string {
    if segments == [] then ""
    else
      var rest := JoinNonEmpty(segments[1..]);
      if segments[0] == "" then rest
      else if rest == "" then segments[0]
      else segments[0] + "/" + rest
  }

  function ObjectPath(path: string, bucket: string, file: string): string {
    JoinNonEmpty([TrimRight(path, IsSlash), WithoutSlashes(bucket), TrimLeft(file, IsSlash)])
  }

  function BuildS3Url(storage: Option<ObjectStorage>, file: string, lib: Library): Option<string> {
    if storage.None? || Endpoint(storage.value) == "" || storage.value.bucket == "" || file == "" then None
    else if storage.value.accessKey == "" || storage.value.secretKey == "" then None
    else
      var address := lib.parse(FullEndpoint(storage.value));
      if address.None? || address.value.scheme == "" || address.value.host == "" then None
      else
        var a := address.value;
        Some(lib.render(a.(path := ObjectPath(a.path, storage.value.bucket, file))))
  }

  function BuildSql(verb: string, storage: Option<ObjectStorage>, file: string, lib: Library): Option<string> {
    var url := BuildS3Url(storage, file, lib);
    if url.None? then None else Some(Statement(verb, url.value, storage.value.accessKey, storage.value.secretKey))
  }

  function BuildBackupSql(storage: Option<ObjectStorage>, file: string, lib: Library): Option<string> {
    BuildSql(BACKUP, storage, file, lib)
  }

  function BuildRestoreSql(storage: Option<ObjectStorage>, file: string, lib: Library): Option<string> {
    BuildSql(RESTORE, storage, file, lib)
  }

  /** The object's path with the segment in front, if there is one. */
  function InFront(segment: string, path: string): string {
    (if segment == "" then "" else segment + "/") + path
  }

  lemma JoinThree(p: string, b: string, f: string)
    ensures JoinNonEmpty([p, b, f]) ==
              if f != "" then InFront(p, InFront(b, f)) else if b != "" then InFront(p, b) else p
  {
    assert [p, b, f][1..] == [b, f] && [b, f][1..] == [f] && [f][1..] == [];
    assert JoinNonEmpty([f]) == f;
    assert JoinNonEmpty([b, f]) == if b == "" then f else if f == "" then b else b + "/" + f;
    assert InFront("", b) == b && InFront("", f) == f && InFront("", b + "/" + f) == b + "/" + f;
    assert InFront(b, f) == if b == "" then f else b + "/" + f;
  }

  lemma NoOuterSlashes(s: string)
    ensures var r := WithoutSlashes(s); r == "" || (r[0] != '/' && r[|r| - 1] != '/')
  {
    var left := TrimLeft(s, IsSlash);
    var r := TrimRight(left, IsSlash);
    if r != "" { assert r[0] == left[0]; }
  }

  /**
   The path is made of the endpoint's path, the bucket and the file, each without its outer slashes, with single slashes
   between those that are not empty.
   */
  lemma PathIsJoined(path: string, bucket: string, file: string)
    ensures var p, b, f := TrimRight(path, IsSlash), WithoutSlashes(bucket), TrimLeft(file, IsSlash);
            && ObjectPath(path, bucket, file) ==
                 (if f != "" then InFront(p, InFront(b, f)) else if b != "" then InFront(p, b) else p)
            && (p == "" || p[|p| - 1] != '/') && (f == "" || f[0] != '/')
            && (b == "" || (b[0] != '/' && b[|b| - 1] != '/'))
  {
    var p, b, f := TrimRight(path, IsSlash), WithoutSlashes(bucket), TrimLeft(file, IsSlash);
    JoinThree(p, b, f);
    NoOuterSlashes(bucket);
  }

  /******* One escape per character *******/

  function EscapeChar(c: char): string {
    if c == BACKSLASH || c == QUOTE then [BACKSLASH, c] else [c]
  }

  function Escape(s: string): string {
    if s == [] then [] else EscapeChar(s[0]) + Escape(s[1..])
  }

  lemma {:induction false} ReplaceAllConcat(a: string, b: string, what: char, with: string)
    ensures ReplaceAll(a + b, what, with) == ReplaceAll(a, what, with) + ReplaceAll(b, what, with)
  {
    if a == [] {
      assert a + b == b;
    } else {
      var head := if a[0] == what then with else [a[0]];
      var x, y := ReplaceAll(a[1..], what, with), ReplaceAll(b, what, with);
      ReplaceAllConcat(a[1..], b, what, with);
      assert (a + b)[1..] == a[1..] + b && (a + b)[0] == a[0];
      assert ReplaceAll(a + b, what, with) == head + (x + y);
      assert head + (x + y) == (head + x) + y;
    }
  }

  /** The two successive replacements escape each character on its own. */
  lemma {:induction false} TwoReplacementsAreOneEscape(s: string)
    ensures ReplaceAll(ReplaceAll(s, BACKSLASH, [BACKSLASH, BACKSLASH]), QUOTE, [BACKSLASH, QUOTE]) == Escape(s)
  {
    if s != [] {
      var head := if s[0] == BACKSLASH then [BACKSLASH, BACKSLASH] else [s[0]];
      var tail := ReplaceAll(s[1..], BACKSLASH, [BACKSLASH, BACKSLASH]);
      TwoReplacementsAreOneEscape(s[1..]);
      ReplaceAllConcat(head, tail, QUOTE, [BACKSLASH, QUOTE]);
      ShortReplace(head);
    }
  }

  lemma ShortReplace(s: string)
    requires |s| == 1 || s == [BACKSLASH, BACKSLASH]
    ensures ReplaceAll(s, QUOTE, [BACKSLASH, QUOTE]) == if s == [QUOTE] then [BACKSLASH, QUOTE] else s
  {
    if |s| == 2 {
      assert s[1..] == [BACKSLASH] && s[1..][1..] == [];
    }
  }

  /******* Reading *******/

  datatype Literal = Literal(value: string, rest: string)

  /**
   Reads up to the closing quote; a backslash stands for the character after it. Some dialects also read two quotes in a
   row as one.
   */
  function ReadBody(s: string, doubling: bool): Option<Literal>
    decreases |s|
  {
    if s == [] then None
    else if s[0] == BACKSLASH then
      if |s| == 1 then None else Consed(s[1], ReadBody(s[2..], doubling))
    else if s[0] != QUOTE then Consed(s[0], ReadBody(s[1..], doubling))
    else if doubling && |s| > 1 && s[1] == QUOTE then Consed(QUOTE, ReadBody(s[2..], doubling))
    else Some(Literal([], s[1..]))
  }

  function Consed(c: char, l: Option<Literal>): Option<Literal> {
    if l.None? then None else Some(Literal([c] + l.value.value, l.value.rest))
  }

  function ReadLiteral(s: string, doubling: bool): Option<Literal> {
    if s == [] || s[0] != QUOTE then None else ReadBody(s[1..], doubling)
  }

  predicate Follows(rest: string, doubling: bool) {
    doubling ==> rest == [] || rest[0] != QUOTE
  }

  lemma ReadEscaped(c: char, tail: string, doubling: bool)
    ensures ReadBody(EscapeChar(c) + tail, doubling) == Consed(c, ReadBody(tail, doubling))
  {
    assert (EscapeChar(c) + tail)[|EscapeChar(c)|..] == tail;
  }

  lemma {:induction false} EscapeReadsBack(s: string, rest: string, doubling: bool)
    requires Follows(rest, doubling)
    ensures ReadBody(Escape(s) + [QUOTE] + rest, doubling) == Some(Literal(s, rest))
  {
    if s == [] {
      assert (Escape(s) + [QUOTE] + rest)[1..] == rest;
    } else {
      var tail := Escape(s[1..]) + [QUOTE] + rest;
      EscapeReadsBack(s[1..], rest, doubling);
      ReadEscaped(s[0], tail, doubling);
      assert Escape(s) + [QUOTE] + rest == EscapeChar(s[0]) + tail;
      assert s == [s[0]] + s[1..];
    }
  }

  /** Reading a printed literal gives back every string exactly, and stops at its closing quote, whatever follows. */
  lemma QuoteReadsBack(value: string, rest: string, doubling: bool)
    requires Follows(rest, doubling)
    ensures ReadLiteral(QuoteSqlString(value) + rest, doubling) == Some(Literal(value, rest))
  {
    TwoReplacementsAreOneEscape(value);
    EscapeReadsBack(value, rest, doubling);
    assert (QuoteSqlString(value) + rest)[1..] == Escape(value) + [QUOTE] + rest;
  }

  /******* Whole statements *******/

  function Expect(s: string, what: string): Option<string> {
    if what <= s then Some(s[|what|..]) else None
  }

  datatype Arguments = Arguments(url: string, accessKey: string, secretKey: string)

  function ReadLast(s: string, url: string, accessKey: string, doubling: bool): Option<Arguments> {
    match ReadLiteral(s, doubling)
    case None => None
    case Some(l) => if l.rest == ")" then Some(Arguments(url, accessKey, l.value)) else None
  }

  function ReadTwo(s: string, url: string, doubling: bool): Option<Arguments> {
    match ReadLiteral(s, doubling)
    case None => None
    case Some(l) =>
      var rest := Expect(l.rest, ", ");
      if rest.None? then None else ReadLast(rest.value, url, l.value, doubling)
  }

  function ReadArguments(s: string, doubling: bool): Option<Arguments> {
    match ReadLiteral(s, doubling)
    case None => None
    case Some(l) =>
      var rest := Expect(l.rest, ", ");
      if rest.None? then None else ReadTwo(rest.value, l.value, doubling)
  }

  function ReadStatement(verb: string, s: string, doubling: bool): Option<Arguments> {
    var rest := Expect(s, verb);
    if rest.None? then None else ReadArguments(rest.value, doubling)
  }

  lemma ExpectPrefix(what: string, rest: string)
    ensures Expect(what + rest, what) == Some(rest)
  {
    assert (what + rest)[|what|..] == rest;
  }

  lemma LastReadsBack(url: string, accessKey: string, secretKey: string, doubling: bool)
    ensures ReadLast(QuoteSqlString(secretKey) + ")", url, accessKey, doubling)
            == Some(Arguments(url, accessKey, secretKey))
  {
    QuoteReadsBack(secretKey, ")", doubling);
  }

  lemma TwoReadBack(url: string, accessKey: string, secretKey: string, doubling: bool)
    ensures ReadTwo(QuoteSqlString(accessKey) + (", " + (QuoteSqlString(secretKey) + ")")), url, doubling)
         == Some(Arguments(url, accessKey, secretKey))
  {
    var rest := QuoteSqlString(secretKey) + ")";
    QuoteReadsBack(accessKey, ", " + rest, doubling);
    ExpectPrefix(", ", rest);
    LastReadsBack(url, accessKey, secretKey, doubling);
  }

  lemma ArgumentsReadBack(url: string, accessKey: string, secretKey: string, doubling: bool)
    ensures var rest := QuoteSqlString(accessKey) + (", " + (QuoteSqlString(secretKey) + ")"));
            ReadArguments(QuoteSqlString(url) + (", " + rest), doubling) == Some(Arguments(url, accessKey, secretKey))
  {
    var rest := QuoteSqlString(accessKey) + (", " + (QuoteSqlString(secretKey) + ")"));
    QuoteReadsBack(url, ", " + rest, doubling);
    ExpectPrefix(", ", rest);
    TwoReadBack(url, accessKey, secretKey, doubling);
  }

  lemma Reassociate(a: string, b: string, c: string, d: string, e: string, f: string, g: string)
    ensures a + b + c + d + e + f + g == a + (b + (c + (d + (e + (f + g)))))
  {
  }

  /** The three arguments of a statement parse back to the original values, whatever characters they contain. */
  lemma StatementReadsBack(verb: string, url: string, accessKey: string, secretKey: string, doubling: bool)
    ensures ReadStatement(verb, Statement(verb, url, accessKey, secretKey), doubling)
         == Some(Arguments(url, accessKey, secretKey))
  {
    var u, k, p := QuoteSqlString(url), QuoteSqlString(accessKey), QuoteSqlString(secretKey);
    Reassociate(verb, u, ", ", k, ", ", p, ")");
    ExpectPrefix(verb, u + (", " + (k + (", " + (p + ")")))));
    ArgumentsReadBack(url, accessKey, secretKey, doubling);
  }

  /** Everything that is asked for is there, and the endpoint is an address with a host. */
  predicate Complete(storage: Option<ObjectStorage>, file: string, lib: Library) {
    && storage.Some? && file != ""
    && storage.value.bucket != "" && storage.value.accessKey != "" && storage.value.secretKey != ""
    && Endpoint(storage.value) != ""
    && var address := lib.parse(FullEndpoint(storage.value));
       address.Some? && address.value.scheme != "" && address.value.host != ""
  }

  ghost predicate AllAre(s: string, kind: char -> bool) {
    forall i :: 0 <= i < |s| ==> kind(s[i])
  }

  lemma TrimmedLeft(s: string, cut: char -> bool) returns (front: string)
    ensures s == front + TrimLeft(s, cut) && AllAre(front, cut)
  {
    front := s[..|s| - |TrimLeft(s, cut)|];
  }

  lemma TrimmedRight(s: string, cut: char -> bool) returns (back: string)
    ensures s == TrimRight(s, cut) + back && AllAre(back, cut)
  {
    back := s[|TrimRight(s, cut)|..];
  }

  /** Only white space around the endpoint and slashes at its end are not used, and all of them. */
  lemma EndpointIsTrimmed(storage: ObjectStorage) returns (front: string, slashes: string, back: string)
    ensures var e := Endpoint(storage);
            && storage.endpoint == front + (e + slashes + back)
            && AllAre(front, IsSpace) && AllAre(slashes, IsSlash) && AllAre(back, IsSpace)
            && (e == "" || e[|e| - 1] != '/')
            && (e + slashes == "" || (!IsSpace((e + slashes)[0]) && !IsSpace((e + slashes)[|e + slashes| - 1])))
  {
    var left := TrimLeft(storage.endpoint, IsSpace);
    front := TrimmedLeft(storage.endpoint, IsSpace);
    back := TrimmedRight(left, IsSpace);
    slashes := TrimmedRight(TrimRight(left, IsSpace), IsSlash);
    var both := TrimRight(left, IsSpace);
    assert both == Endpoint(storage) + slashes;
    if both != "" { assert both[0] == left[0]; }
  }

  /**
   The address in the statement: what the library makes of the endpoint, with the scheme that the storage asks for if it
   names none itself, where the bucket and then the file have been added to its path.
   */
  lemma UrlIsOfBucketAndFile(storage: ObjectStorage, file: string, lib: Library)
    requires Complete(Some(storage), file, lib)
    ensures var e := Endpoint(storage);
            var named := exists i :: 0 <= i < |e| && "://" <= e[i..];
            var a := lib.parse(if named then e else if storage.ssl then "https://" + e else "http://" + e);
            && a.Some?
            && BuildS3Url(Some(storage), file, lib) ==
                 Some(lib.render(a.value.(path := ObjectPath(a.value.path, storage.bucket, file))))
  {
  }

  /** A backup and a restore are built exactly when nothing is missing, and pass the three values on unchanged. */
  lemma BuiltStatementsReadBack(storage: Option<ObjectStorage>, file: string, lib: Library, doubling: bool)
    ensures BuildBackupSql(storage, file, lib).Some? <==> Complete(storage, file, lib)
    ensures BuildRestoreSql(storage, file, lib).Some? <==> Complete(storage, file, lib)
    ensures Complete(storage, file, lib) ==>
              var url := BuildS3Url(storage, file, lib);
              && url.Some?
              && ReadStatement("BACKUP ALL TO S3(", BuildBackupSql(storage, file, lib).value, doubling)
                 == Some(Arguments(url.value, storage.value.accessKey, storage.value.secretKey))
              && ReadStatement("RESTORE ALL FROM S3(", BuildRestoreSql(storage, file, lib).value, doubling)
                 == Some(Arguments(url.value, storage.value.accessKey, storage.value.secretKey))
  {
    if Complete(storage, file, lib) {
      var url, k, p := BuildS3Url(storage, file, lib).value, storage.value.accessKey, storage.value.secretKey;
      StatementReadsBack(BACKUP, url, k, p, doubling);
      StatementReadsBack(RESTORE, url, k, p, doubling);
    }
  }
}
