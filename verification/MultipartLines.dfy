/** Header lines as other senders write them, and messages of parts that carry any of them. */
module MultipartLines {

  import opened Headers
  import opened MultipartHeaders
  import opened MultipartParts
  import opened MultipartSpec
  import opened Query
  import opened Sequences
  import opened Text
  import opened Wrappers

  // ---------------------------------------------------------------- what a line says

  /** The file name of a part: as it is, in the extended form with percent escapes, or in both. */
  datatype Naming = Unnamed | Plain(filename: string) | Extended(charset: string, escaped: string)
                  | Both(filename: string, charset: string, escaped: string)

  /**
   A header line; the two names that matter are spelled in any case. A disposition of
   another kind than form data is a line like any other.
   */
  datatype PartHeader =
    | OtherHeader(name: string, rest: string)
    | TypeHeader(spelling: string, contentType: string)
    | DispositionHeader(spelling: string, kind: string, name: string, naming: Naming)

  /** A parameter of a disposition, with its value as it is written. */
  datatype Param = Param(key: string, raw: string)

  function ParamsOf(name: string, naming: Naming): seq<Param> {
    [Param("name", Quoted(name))] + match naming
                                    case Unnamed => []
                                    case Plain(f) => [Param("filename", Quoted(f))]
                                    case Extended(c, e) => [Param("filename*", c + e)]
                                    case Both(f, c, e) => [Param("filename", Quoted(f)), Param("filename*", c + e)]
  }

  function OneParam(x: Param): string {
    x.key + "=" + x.raw
  }

  function ParamsLine(params: seq<Param>): string
    requires params != []
  {
    if |params| == 1 then OneParam(params[0]) else OneParam(params[0]) + ";" + (" " + ParamsLine(params[1..]))
  }

  function HeaderText(h: PartHeader): string {
    match h
    case OtherHeader(name, rest) => name + ":" + rest
    case TypeHeader(spelling, contentType) => spelling + ":" + (" " + contentType)
    case DispositionHeader(spelling, kind, name, naming) =>
      spelling + ":" + (" " + (kind + ";" + (" " + ParamsLine(ParamsOf(name, naming)))))
  }

  /** What is known of the file after the line: other lines say nothing of it. */
  function Says(h: PartHeader, file: FileInfo): FileInfo {
    match h
    case OtherHeader(_, _) => file
    case TypeHeader(_, contentType) => file.(contentType := contentType)
    case DispositionHeader(_, _, name, naming) =>
      var f := file.(name := name);
      match naming
      case Unnamed => f
      case Plain(filename) => f.(filename := filename)
      case Extended(_, escaped) => f.(filename := Decoded(escaped, false))
      case Both(_, _, escaped) => f.(filename := Decoded(escaped, false))
  }

  ghost predicate IsEscaped(charset: string, escaped: string) {
    && SameIgnoringCase(charset, UTF8_PREFIX) && escaped != "" && IsParam(escaped)
    && !IsBlank(escaped[|escaped| - 1])
  }

  ghost predicate IsNaming(naming: Naming) {
    match naming
    case Unnamed => true
    case Plain(filename) => IsParam(filename)
    case Extended(charset, escaped) => IsEscaped(charset, escaped)
    case Both(filename, charset, escaped) => IsParam(filename) && IsEscaped(charset, escaped)
  }

  ghost predicate IsWritten(h: PartHeader) {
    match h
    case OtherHeader(name, rest) =>
      && name != "" && ':' !in name && IsOneLine(name) && IsOneLine(rest) && Trim(rest) != ""
      && !SameIgnoringCase(name, TYPE_NAME)
      && (SameIgnoringCase(name, DISPOSITION_NAME) ==> !StartsIgnoringCase(SkipSpace(rest), FORM_DATA))
    case TypeHeader(spelling, contentType) =>
      SameIgnoringCase(spelling, TYPE_NAME) && IsTrimmed(contentType) && IsOneLine(contentType)
    case DispositionHeader(spelling, kind, name, naming) =>
      && SameIgnoringCase(spelling, DISPOSITION_NAME) && SameIgnoringCase(kind, "form-data")
      && IsParam(name) && IsNaming(naming)
  }

  ghost predicate IsHeader(h: PartHeader) {
    IsWritten(h) && |HeaderText(h)| < HEADER_MAX_LENGTH
  }

  // ---------------------------------------------------------------- names in any case

  lemma SpelledName(spelling: string, name: string)
    requires SameIgnoringCase(spelling, name) && ':' !in name && IsOneLine(name)
    ensures ':' !in spelling && IsOneLine(spelling) && |spelling| == |name|
  {
    forall i | 0 <= i < |spelling| ensures spelling[i] != ':' && spelling[i] != '\r' && spelling[i] != '\n' {
      assert ToLower(spelling[i]) == ToLower(name[i]) && name[i] in name;
    }
  }

  /** A line with a name and something behind the colon is a header line. */
  lemma HasNameAndValue(name: string, rest: string, line: string)
    requires line == name + ":" + rest && name != "" && ':' !in name && Trim(rest) != ""
    ensures ParsedHeader(line).Some?
  {
    var a := Ink(rest, 0);
    assert a < |rest|;
    var p := |name|;
    assert line[p + 1 + a] == rest[a] && line[p] == ':';
    var end := InkEnd(line, |line|);
    assert p + 1 + a < end;
    var text := Stripped(line);
    assert text == line[..end] && text[p + 1 + a] == rest[a];
    forall j | 0 <= j < p ensures text[j] != ':' {
      assert text[j] == name[j] && name[j] in name;
    }
    FirstColon(text, p);
  }

  /** Only the name itself, in some case, starts a line with the name and a colon. */
  lemma OtherName(name: string, rest: string, other: string, line: string)
    requires line == name + ":" + rest && ':' !in name && ':' !in other && !SameIgnoringCase(name, other)
    ensures !StartsIgnoringCase(line, other + ":")
  {
    if StartsIgnoringCase(line, other + ":") {
      var prefix := other + ":";
      var head := line[..|prefix|];
      SameHead(name, rest, other, line, head);
      assert false;
    }
  }

  lemma SameHead(name: string, rest: string, other: string, line: string, head: string)
    requires line == name + ":" + rest && ':' !in name && ':' !in other
    requires |other| + 1 <= |line| && head == line[..|other| + 1] && SameIgnoringCase(head, other + ":")
    ensures SameIgnoringCase(name, other)
  {
    var n, prefix := |other|, other + ":";
    assert ToLower(head[n]) == ToLower(prefix[n]) == ':';
    assert line[n] == ':' && line[|name|] == ':';
    forall i | 0 <= i < |name| ensures line[i] != ':' {
      assert line[i] == name[i] && name[i] in name;
    }
    forall i | 0 <= i < n ensures line[i] != ':' {
      assert ToLower(head[i]) == ToLower(prefix[i]) && prefix[i] == other[i] && other[i] in other;
    }
    assert |name| == n;
    forall i | 0 <= i < n ensures ToLower(name[i]) == ToLower(other[i]) {
      assert head[i] == name[i] && prefix[i] == other[i];
    }
  }

  // ---------------------------------------------------------------- parameters

  /** A key that is a plain word, and a value that separates nothing. */
  ghost predicate IsGoodParam(x: Param) {
    IsWord(x.key) && IsParam(x.raw) && IsTrimmed(x.raw)
  }

  ghost predicate AreParams(params: seq<Param>) {
    && (forall i :: 0 <= i < |params| ==> IsGoodParam(params[i]))
    && (forall i, j :: 0 <= i < j < |params| ==> params[i].key != params[j].key)
  }

  lemma GoodParam(x: Param)
    requires IsGoodParam(x)
    ensures ';' !in OneParam(x) && IsTrimmed(OneParam(x)) && IsOneLine(OneParam(x))
    ensures Pieces(OneParam(x), '=') == [x.key, x.raw]
  {
    PiecesOfTwo(x.key, x.raw);
    assert [x.key] + [x.raw] == [x.key, x.raw];
  }

  function Texts(params: seq<Param>): (t: seq<string>)
    ensures |t| == |params| && forall i :: 0 <= i < |t| ==> t[i] == OneParam(params[i])
  {
    seq(|params|, i requires 0 <= i < |params| => OneParam(params[i]))
  }

  lemma TextsCons(params: seq<Param>)
    requires params != []
    ensures Texts(params) == [OneParam(params[0])] + Texts(params[1..])
  {
  }

  lemma FirstPiece(a: string, rest: string)
    requires ';' !in a
    ensures Pieces(a + ";" + rest, ';') == KeptOne(a) + Pieces(rest, ';')
  {
    var s := a + ";" + rest;
    assert s[..|a|] == a && s[|a| + 1..] == rest;
    FirstField(s, ';', |a|);
    KeptCons(a, Fields(rest, ';'));
  }

  lemma LastPiece(a: string)
    requires ';' !in a
    ensures Pieces(a, ';') == KeptOne(a)
  {
    assert a[..|a|] == a;
    FirstField(a, ';', |a|);
    assert [a] + [] == [a];
    KeptCons(a, []);
    assert KeptOne(a) + [] == KeptOne(a);
  }

  lemma KeptLead(lead: string, a: string)
    requires (lead == "" || lead == " ") && ';' !in a && IsTrimmed(a)
    ensures KeptOne(lead + a) == [a] && ';' !in lead + a
  {
    if lead == "" {
      assert lead + a == a;
      TrimKeeps(a);
    } else {
      TrimBlank(a);
    }
  }

  lemma RestAreParams(params: seq<Param>)
    requires params != [] && AreParams(params)
    ensures IsGoodParam(params[0]) && AreParams(params[1..])
    ensures forall i :: 1 <= i < |params| ==> IsGoodParam(params[i]) && params[0].key != params[i].key
  {
    hide IsGoodParam;
    var rest := params[1..];
    assert forall i :: 0 <= i < |rest| ==> rest[i] == params[i + 1];
  }

  lemma OneParamLine(params: seq<Param>)
    requires |params| == 1
    ensures ParamsLine(params) == OneParam(params[0]) && Texts(params) == [OneParam(params[0])]
  {
  }

  lemma MoreParamsLine(params: seq<Param>, rest: seq<Param>)
    requires |params| > 1 && rest == params[1..]
    ensures ParamsLine(params) == OneParam(params[0]) + ";" + (" " + ParamsLine(rest))
  {
  }

  /** The pieces of the line are the parameters. */
  lemma {:induction false} ParamsPieces(lead: string, params: seq<Param>)
    requires (lead == "" || lead == " ") && params != [] && AreParams(params)
    ensures Pieces(lead + ParamsLine(params), ';') == Texts(params)
    decreases |params|
  {
    hide *;
    var x, rest := OneParam(params[0]), params[1..];
    RestAreParams(params);
    GoodParam(params[0]);
    KeptLead(lead, x);
    if |params| == 1 {
      OneParamLine(params);
      LastPiece(lead + x);
    } else {
      TextsCons(params);
      MoreParamsLine(params, rest);
      ParamsPieces(" ", rest);
      FirstPiece(lead + x, " " + ParamsLine(rest));
      LeadFirst(lead, x, " " + ParamsLine(rest));
    }
  }

  lemma LeadFirst(lead: string, x: string, rest: string)
    ensures lead + (x + ";" + rest) == lead + x + ";" + rest
  {
  }

  /** The parameters in a multimap, one after the other. */
  function ReadInto(params: seq<Param>, items: seq<Pair>): seq<Pair> {
    if params == [] then items
    else ReadInto(params[1..], Inserted(items, Pair(params[0].key, TrimDoubleQuotes(params[0].raw))))
  }

  lemma IntoFirst(t: string, rest: seq<string>, cache: set<string>, items: seq<Pair>)
    requires t !in cache
    ensures DispositionInto([t] + rest, cache, items) == DispositionInto(rest, cache + {t}, DispositionOne(t, items))
  {
    assert ([t] + rest)[1..] == rest;
  }

  lemma {:induction false} IntoParams(params: seq<Param>, cache: set<string>, items: seq<Pair>)
    requires AreParams(params) && forall i :: 0 <= i < |params| ==> OneParam(params[i]) !in cache
    ensures DispositionInto(Texts(params), cache, items) == ReadInto(params, items)
    decreases |params|
  {
    hide AreParams, IsGoodParam, OneParam, DispositionOne, Inserted, TrimDoubleQuotes;
    if params != [] {
      var x, rest := params[0], params[1..];
      RestAreParams(params);
      TextsCons(params);
      ReadOne(x, items);
      IntoFirst(OneParam(x), Texts(rest), cache, items);
      forall i | 0 <= i < |rest| ensures OneParam(rest[i]) !in cache + {OneParam(x)} {
        assert rest[i] == params[i + 1];
        DifferentParams(x, params[i + 1]);
      }
      IntoParams(rest, cache + {OneParam(x)}, DispositionOne(OneParam(x), items));
    }
  }

  lemma ReadOne(x: Param, items: seq<Pair>)
    requires IsGoodParam(x)
    ensures DispositionOne(OneParam(x), items) == Inserted(items, Pair(x.key, TrimDoubleQuotes(x.raw)))
  {
    GoodParam(x);
  }

  lemma DifferentParams(x: Param, y: Param)
    requires IsGoodParam(x) && IsGoodParam(y) && x.key != y.key
    ensures OneParam(x) != OneParam(y)
  {
    GoodParam(x);
    GoodParam(y);
  }

  lemma {:induction false} LookupInserted(items: seq<Pair>, x: Pair, key: string)
    requires x.key == key ==> Lookup(items, key).None?
    ensures Lookup(Inserted(items, x), key) == if x.key == key then Some(x.value) else Lookup(items, key)
  {
    if items == [] || Before(x.key, items[0].key) {
      assert ([x] + items)[1..] == items;
    } else {
      LookupInserted(items[1..], x, key);
      assert ([items[0]] + Inserted(items[1..], x))[1..] == Inserted(items[1..], x);
    }
  }

  /** Each parameter is found under its key, and nothing else is. */
  lemma {:induction false} LookupRead(params: seq<Param>, items: seq<Pair>, key: string)
    requires AreParams(params) && ((exists i :: 0 <= i < |params| && params[i].key == key) ==> Lookup(items, key).None?)
    ensures forall i :: 0 <= i < |params| && params[i].key == key ==>
              Lookup(ReadInto(params, items), key) == Some(TrimDoubleQuotes(params[i].raw))
    ensures (forall i :: 0 <= i < |params| ==> params[i].key != key) ==>
              Lookup(ReadInto(params, items), key) == Lookup(items, key)
    decreases |params|
  {
    if params != [] {
      var x, rest := Pair(params[0].key, TrimDoubleQuotes(params[0].raw)), params[1..];
      LookupInserted(items, x, key);
      LookupRead(rest, Inserted(items, x), key);
      assert forall i :: 1 <= i < |params| ==> params[i] == rest[i - 1];
    }
  }

  // ---------------------------------------------------------------- the lines

  lemma SameBefore(a: string, b: string, c: string)
    requires SameIgnoringCase(a, b)
    ensures SameIgnoringCase(a + c, b + c)
  {
  }

  /** A blank and a value behind a prefix in any case. */
  lemma BehindSpelled(spelled: string, prefix: string, t: string, line: string)
    requires SameIgnoringCase(spelled, prefix) && line == spelled + (" " + t) && t != "" && !IsSpace(t[0])
    ensures StartsIgnoringCase(line, prefix) && line[|prefix|..] == " " + t && SkipSpace(line[|prefix|..]) == t
  {
    assert line[..|prefix|] == spelled && line[|prefix|..] == " " + t;
    SkipOneBlank(t);
  }

  lemma HasInk(s: string, i: nat)
    requires i < |s| && !IsBlank(s[i])
    ensures Trim(s) != ""
  {
    assert Ink(s, 0) <= i < InkEnd(s, |s|);
  }

  lemma DispositionTextSpelled(spelling: string, kind: string, text: string, t: string, line: string)
    requires SameIgnoringCase(spelling, DISPOSITION_NAME) && SameIgnoringCase(kind, "form-data")
    requires text != "" && !IsSpace(text[0]) && IsOneLine(text)
    requires t == (kind + ";") + (" " + text) && line == (spelling + ":") + (" " + t)
    ensures DispositionText(line) == Some(text) && !IsBlank(t[0])
  {
    hide SameIgnoringCase, SkipSpace, StartsIgnoringCase;
    KindStart(kind);
    SameBefore(spelling, DISPOSITION_NAME, ":");
    SameBefore(kind, "form-data", ";");
    BehindSpelled(spelling + ":", CONTENT_DISPOSITION, t, line);
    BehindSpelled(kind + ";", FORM_DATA, text, t);
  }

  lemma KindStart(kind: string)
    requires SameIgnoringCase(kind, "form-data")
    ensures kind != "" && !IsSpace(kind[0]) && !IsBlank(kind[0]) && IsOneLine(kind) && ':' !in kind
  {
    SpelledName(kind, "form-data");
    assert ToLower(kind[0]) == 'f';
  }

  lemma OtherNames()
    ensures !SameIgnoringCase(DISPOSITION_NAME, TYPE_NAME) && ':' !in DISPOSITION_NAME && ':' !in TYPE_NAME
    ensures IsOneLine(DISPOSITION_NAME) && IsOneLine(TYPE_NAME) && DISPOSITION_NAME != "" && TYPE_NAME != ""
    ensures |DISPOSITION_NAME| != |TYPE_NAME|
  {
  }

  lemma SpelledIsNotType(spelling: string)
    requires SameIgnoringCase(spelling, DISPOSITION_NAME)
    ensures !SameIgnoringCase(spelling, TYPE_NAME)
  {
    OtherNames();
  }

  // ---------------------------------------------------------------- the parameters of a disposition

  lemma ExtendedWord()
    ensures IsWord("filename*")
  {
  }

  lemma CharsetKeeps(charset: string, escaped: string)
    requires IsEscaped(charset, escaped)
    ensures IsParam(charset + escaped) && IsTrimmed(charset + escaped)
    ensures TrimDoubleQuotes(charset + escaped) == charset + escaped
    ensures ExtendedFilename(charset + escaped) == Some(Decoded(escaped, false))
  {
    var v := charset + escaped;
    assert v[..|UTF8_PREFIX|] == charset && v[|UTF8_PREFIX|..] == escaped;
    forall i | 0 <= i < |charset| ensures charset[i] !in [';', '=', '\r', '\n'] {
      assert ToLower(charset[i]) == ToLower(UTF8_PREFIX[i]);
    }
    assert ToLower(charset[0]) == 'u' && v[0] == charset[0];
  }

  lemma QuotedIsGood(key: string, s: string)
    requires IsWord(key) && IsParam(s)
    ensures IsGoodParam(Param(key, Quoted(s)))
  {
    QuotedKeeps(s);
  }

  lemma ExtendedIsGood(charset: string, escaped: string)
    requires IsEscaped(charset, escaped)
    ensures IsGoodParam(Param("filename*", charset + escaped))
  {
    CharsetKeeps(charset, escaped);
    ExtendedWord();
  }

  lemma ParamsOfAre(name: string, naming: Naming)
    requires IsParam(name) && IsNaming(naming)
    ensures AreParams(ParamsOf(name, naming))
  {
    hide IsParam, IsEscaped, IsWord, IsGoodParam, Quoted;
    Words();
    QuotedIsGood("name", name);
    match naming {
      case Unnamed =>
      case Plain(f) =>
        QuotedIsGood("filename", f);
      case Extended(c, e) =>
        ExtendedIsGood(c, e);
      case Both(f, c, e) =>
        QuotedIsGood("filename", f);
        ExtendedIsGood(c, e);
    }
  }

  lemma {:induction false} ParamsAreLine(params: seq<Param>)
    requires params != [] && AreParams(params)
    ensures ParamsLine(params) != "" && ParamsLine(params)[0] == params[0].key[0] && IsOneLine(ParamsLine(params))
    decreases |params|
  {
    hide IsGoodParam, AreParams;
    RestAreParams(params);
    GoodParam(params[0]);
    KeyFirst(params[0]);
    if |params| > 1 {
      ParamsAreLine(params[1..]);
    }
  }

  lemma KeyFirst(x: Param)
    requires IsGoodParam(x)
    ensures OneParam(x) != "" && x.key != "" && OneParam(x)[0] == x.key[0]
  {
  }

  /** What the parameters say of the file. */
  lemma ParamsSay(file: FileInfo, h: PartHeader, params: seq<Param>)
    requires h.DispositionHeader? && IsParam(h.name) && IsNaming(h.naming)
    requires params == ParamsOf(h.name, h.naming) && AreParams(params)
    ensures WithParams(file, ReadInto(params, [])) == Taken(true, Says(h, file))
  {
    hide AreParams, ReadInto, Quoted, TrimDoubleQuotes, IsEscaped, ExtendedFilename, Decoded;
    LookupRead(params, [], "name");
    LookupRead(params, [], "filename");
    LookupRead(params, [], "filename*");
    QuotedKeeps(h.name);
    assert params[0] == Param("name", Quoted(h.name));
    match h.naming {
      case Unnamed =>
      case Plain(f) =>
        QuotedKeeps(f);
        assert params[1] == Param("filename", Quoted(f));
      case Extended(c, e) =>
        CharsetKeeps(c, e);
        assert params[1] == Param("filename*", c + e);
      case Both(f, c, e) =>
        QuotedKeeps(f);
        CharsetKeeps(c, e);
        assert params[1] == Param("filename", Quoted(f)) && params[2] == Param("filename*", c + e);
    }
  }

  // ---------------------------------------------------------------- what the parser makes of a line

  /** Lines that are of no interest are accepted and leave the file alone. */
  lemma OtherTaken(file: FileInfo, name: string, rest: string)
    requires IsWritten(OtherHeader(name, rest))
    ensures TakeHeader(file, name + ":" + rest) == Taken(true, file)
  {
    hide SkipSpace, SameIgnoringCase, ParsedHeader, Trim;
    var line := name + ":" + rest;
    OtherNames();
    HasNameAndValue(name, rest, line);
    OtherName(name, rest, TYPE_NAME, line);
    if SameIgnoringCase(name, DISPOSITION_NAME) {
      SpelledName(name, DISPOSITION_NAME);
      assert line[|CONTENT_DISPOSITION|..] == rest;
    } else {
      OtherName(name, rest, DISPOSITION_NAME, line);
    }
  }

  lemma TypeTaken(file: FileInfo, spelling: string, contentType: string)
    requires IsWritten(TypeHeader(spelling, contentType))
    ensures TakeHeader(file, spelling + ":" + (" " + contentType)) == Taken(true, file.(contentType := contentType))
  {
    hide SkipSpace, ParsedHeader, Trim, DispositionText;
    var rest := " " + contentType;
    var line := spelling + ":" + rest;
    OtherNames();
    SpelledName(spelling, TYPE_NAME);
    assert rest[1] == contentType[0];
    HasInk(rest, 1);
    HasNameAndValue(spelling, rest, line);
    SameBefore(spelling, TYPE_NAME, ":");
    assert line[..|CONTENT_TYPE|] == spelling + ":" && line[|CONTENT_TYPE|..] == rest;
    TrimBlank(contentType);
  }

  /** A disposition says what its parameters say. */
  lemma DispositionRead(file: FileInfo, spelling: string, kind: string, params: seq<Param>, text: string, t: string,
                        line: string)
    requires SameIgnoringCase(spelling, DISPOSITION_NAME) && SameIgnoringCase(kind, "form-data")
    requires params != [] && AreParams(params) && params[0].key != "" && !IsSpace(params[0].key[0])
    requires text == ParamsLine(params) && t == (kind + ";") + (" " + text) && line == (spelling + ":") + (" " + t)
    ensures TakeHeader(file, line) == WithParams(file, ReadInto(params, [])) && IsOneLine(text)
  {
    hide SameIgnoringCase, ParsedHeader, StartsIgnoringCase, DispositionText, Trim, IsBlank, IsSpace, IsParam;
    hide AreParams, ParamsLine, Pieces, DispositionInto, WithParams, TakeHeader, Texts, ReadInto, OneParam;
    ParamsAreLine(params);
    DispositionTextSpelled(spelling, kind, text, t, line);
    var rest := " " + t;
    SpelledIsNotType(spelling);
    OtherNames();
    SpelledName(spelling, DISPOSITION_NAME);
    assert rest[1] == t[0];
    HasInk(rest, 1);
    HasNameAndValue(spelling, rest, line);
    OtherName(spelling, rest, TYPE_NAME, line);
    assert "" + ParamsLine(params) == ParamsLine(params);
    ParamsPieces("", params);
    IntoParams(params, {}, []);
    TakenFrom(file, line, text, ReadInto(params, []));
  }

  lemma DispositionSaid(file: FileInfo, h: PartHeader, text: string, t: string, line: string)
    requires h.DispositionHeader? && SameIgnoringCase(h.spelling, DISPOSITION_NAME)
    requires SameIgnoringCase(h.kind, "form-data")
    requires IsParam(h.name) && IsNaming(h.naming) && text == ParamsLine(ParamsOf(h.name, h.naming))
    requires t == (h.kind + ";") + (" " + text) && line == (h.spelling + ":") + (" " + t)
    ensures TakeHeader(file, line) == Taken(true, Says(h, file)) && IsOneLine(text)
  {
    hide SameIgnoringCase, IsParam, AreParams, Says, ParamsLine, WithParams, TakeHeader, IsNaming, ReadInto;
    var params := ParamsOf(h.name, h.naming);
    ParamsOfAre(h.name, h.naming);
    DispositionRead(file, h.spelling, h.kind, params, text, t, line);
    ParamsSay(file, h, params);
  }

  lemma DispositionLineSaid(file: FileInfo, h: PartHeader)
    requires h.DispositionHeader? && IsWritten(h)
    ensures TakeHeader(file, HeaderText(h)) == Taken(true, Says(h, file))
    ensures IsOneLine(HeaderText(h)) && HeaderText(h) != ""
  {
    hide SameIgnoringCase, TakeHeader, Says, ParamsLine, IsParam, IsNaming;
    var text := ParamsLine(ParamsOf(h.name, h.naming));
    var t := (h.kind + ";") + (" " + text);
    var line := (h.spelling + ":") + (" " + t);
    DispositionSaid(file, h, text, t, line);
    DispositionGrouped(h, text, line);
    OtherNames();
    SpelledName(h.spelling, DISPOSITION_NAME);
    KindStart(h.kind);
  }

  lemma DispositionGrouped(h: PartHeader, text: string, line: string)
    requires h.DispositionHeader? && text == ParamsLine(ParamsOf(h.name, h.naming))
    requires line == (h.spelling + ":") + (" " + ((h.kind + ";") + (" " + text)))
    ensures HeaderText(h) == line
  {
  }

  lemma LineOfOther(name: string, rest: string)
    requires IsWritten(OtherHeader(name, rest))
    ensures IsOneLine(name + ":" + rest)
  {
  }

  lemma LineOfType(spelling: string, contentType: string)
    requires IsWritten(TypeHeader(spelling, contentType))
    ensures IsOneLine(spelling + ":" + (" " + contentType))
  {
    OtherNames();
    SpelledName(spelling, TYPE_NAME);
  }

  /** Every such line is taken for what it says. */
  lemma HeaderTaken(file: FileInfo, h: PartHeader)
    requires IsWritten(h)
    ensures TakeHeader(file, HeaderText(h)) == Taken(true, Says(h, file))
    ensures HeaderText(h) != "" && IsOneLine(HeaderText(h)) && (IsHeader(h) ==> IsLine(file, HeaderText(h)))
  {
    hide SameIgnoringCase, TakeHeader, ParamsLine, ParamsOf, IsParam, IsNaming, IsOneLine;
    match h {
      case OtherHeader(name, rest) =>
        OtherTaken(file, name, rest);
        LineOfOther(name, rest);
      case TypeHeader(spelling, contentType) =>
        TypeTaken(file, spelling, contentType);
        LineOfType(spelling, contentType);
      case DispositionHeader(_, _, _, _) =>
        DispositionLineSaid(file, h);
    }
  }

  // ---------------------------------------------------------------- lines that are refused

  /** Lines that are no header lines, and form-data dispositions that cannot be used. */
  datatype BadLine =
    | NoColon(text: string)
    | NoName(rest: string)
    | NoValue(name: string, blanks: string)
    | NoPartName(spelling: string, kind: string, params: seq<Param>)
    | OtherEncoding(spelling: string, kind: string, params: seq<Param>, k: nat)

  function BadText(x: BadLine): string {
    match x
    case NoColon(text) => text
    case NoName(rest) => ":" + rest
    case NoValue(name, blanks) => name + ":" + blanks
    case NoPartName(spelling, kind, params) => DispositionWith(spelling, kind, params)
    case OtherEncoding(spelling, kind, params, _) => DispositionWith(spelling, kind, params)
  }

  function DispositionWith(spelling: string, kind: string, params: seq<Param>): string {
    if params == [] then "" else (spelling + ":") + (" " + ((kind + ";") + (" " + ParamsLine(params))))
  }

  ghost predicate IsDisposition(spelling: string, kind: string, params: seq<Param>) {
    && SameIgnoringCase(spelling, DISPOSITION_NAME) && SameIgnoringCase(kind, "form-data")
    && params != [] && AreParams(params) && params[0].key != "" && !IsSpace(params[0].key[0])
  }

  ghost predicate IsBad(x: BadLine) {
    0 < |BadText(x)| <= HEADER_MAX_LENGTH && IsOneLine(BadText(x)) && match x
    case NoColon(text) => ':' !in text
    case NoName(_) => true
    case NoValue(name, blanks) => ':' !in name && forall i :: 0 <= i < |blanks| ==> IsBlank(blanks[i])
    case NoPartName(spelling, kind, params) =>
      IsDisposition(spelling, kind, params) && forall i :: 0 <= i < |params| ==> params[i].key != "name"
    case OtherEncoding(spelling, kind, params, k) =>
      && IsDisposition(spelling, kind, params) && k < |params| && params[k].key == "filename*"
      && params[k].raw[0] != '"'
      && (!StartsIgnoringCase(params[k].raw, UTF8_PREFIX) || |params[k].raw| == |UTF8_PREFIX|)
  }

  lemma NoNameIsNone(rest: string, line: string)
    requires line == ":" + rest
    ensures ParsedHeader(line).None?
  {
    assert InkEnd(line, |line|) > 0 by {
      assert line[0] == ':';
    }
    FirstColon(Stripped(line), 0);
  }

  lemma NoValueIsNone(name: string, blanks: string, line: string)
    requires line == name + ":" + blanks && ':' !in name && forall i :: 0 <= i < |blanks| ==> IsBlank(blanks[i])
    ensures ParsedHeader(line).None?
  {
    var p := |name|;
    assert line[p] == ':';
    forall j | p + 1 <= j < |line| ensures IsBlank(line[j]) {
      assert line[j] == blanks[j - (p + 1)];
    }
    InkEndIs(line, |line|, p + 1);
    var text := Stripped(line);
    forall j | 0 <= j < p ensures text[j] != ':' {
      assert text[j] == name[j] && name[j] in name;
    }
    FirstColon(text, p);
  }

  lemma NameMissing(file: FileInfo, params: seq<Param>)
    requires AreParams(params) && forall i :: 0 <= i < |params| ==> params[i].key != "name"
    ensures !WithParams(file, ReadInto(params, [])).ok
  {
    hide ReadInto, AreParams;
    LookupRead(params, [], "name");
  }

  lemma EncodingWrong(file: FileInfo, params: seq<Param>, k: nat)
    requires AreParams(params) && k < |params| && params[k].key == "filename*" && params[k].raw != ""
    requires params[k].raw[0] != '"'
    requires !StartsIgnoringCase(params[k].raw, UTF8_PREFIX) || |params[k].raw| == |UTF8_PREFIX|
    ensures !WithParams(file, ReadInto(params, [])).ok
  {
    hide ReadInto, AreParams, StartsIgnoringCase;
    LookupRead(params, [], "filename*");
  }

  lemma BadDisposition(file: FileInfo, spelling: string, kind: string, params: seq<Param>)
    requires IsDisposition(spelling, kind, params)
    ensures TakeHeader(file, DispositionWith(spelling, kind, params)) == WithParams(file, ReadInto(params, []))
  {
    hide TakeHeader, WithParams, AreParams, ReadInto, SameIgnoringCase;
    var text := ParamsLine(params);
    var t := (kind + ";") + (" " + text);
    DispositionRead(file, spelling, kind, params, text, t, DispositionWith(spelling, kind, params));
  }

  /** Such a line is not taken. */
  lemma BadTaken(file: FileInfo, x: BadLine)
    requires IsBad(x)
    ensures !TakeHeader(file, BadText(x)).ok
  {
    hide WithParams, StartsIgnoringCase, DispositionText, AreParams, ReadInto, DispositionWith, ParsedHeader;
    match x {
      case NoColon(text) =>
        Headers.NoColon(text);
      case NoName(rest) =>
        NoNameIsNone(rest, BadText(x));
      case NoValue(name, blanks) =>
        NoValueIsNone(name, blanks, BadText(x));
      case NoPartName(spelling, kind, params) =>
        BadDisposition(file, spelling, kind, params);
        NameMissing(file, params);
      case OtherEncoding(spelling, kind, params, k) =>
        BadDisposition(file, spelling, kind, params);
        GoodRaw(params, k);
        EncodingWrong(file, params, k);
    }
  }

  lemma GoodRaw(params: seq<Param>, k: nat)
    requires AreParams(params) && k < |params|
    ensures params[k].raw != ""
  {
  }

  /** It ends the call: nothing more is told, and the parser is not valid. */
  lemma BadLineIsRefused(b: string, p: Parser, x: BadLine, rest: string)
    requires p.state == 2 && IsBad(x) && p.buf == BadText(x) + (CRLF + rest)
    ensures var r := Run(b, p);
            !r.ok && !r.p.valid && r.p.events == p.events
  {
    hide TakeHeader, IsOneLine;
    var line := BadText(x);
    BadTaken(p.file, x);
    assert p.buf + "" == line + (CRLF + rest);
    FirstLineEnd(line, rest, p.buf, "");
    RefusedLine(b, p, line);
  }

  lemma RefusedLine(b: string, p: Parser, line: string)
    requires p.state == 2 && 0 < |line| <= HEADER_MAX_LENGTH && |line| + 2 <= |p.buf|
    requires First(p.buf, CRLF) == |line| && p.buf[..|line|] == line && !TakeHeader(p.file, line).ok
    ensures var r := Run(b, p);
            !r.ok && !r.p.valid && r.p.events == p.events
  {
    hide First, TakeHeader;
  }

  /** The limit: where the header lines go on, a line that is too long ends the call. */
  lemma LongLineIsRefused(b: string, p: Parser)
    requires p.state == 2 && |p.buf| > HEADER_MAX_LENGTH && Clear(p.buf, CRLF, HEADER_MAX_LENGTH + 1)
    ensures Run(b, p) == Stop(p, false)
  {
    hide StepHeaders;
    FirstOccurs(p.buf, CRLF);
  }

  /** The next line of the loop. */
  lemma LineTaken(p: Parser, h: PartHeader, tail: string) returns (q: Parser)
    requires IsWritten(h) && p.buf == HeaderText(h) + (CRLF + tail)
    ensures q == p.(file := Says(h, p.file), buf := tail) && StepHeaders(p) == StepHeaders(q)
    ensures First(p.buf, CRLF) == |HeaderText(h)|
  {
    hide IsWritten, HeaderText, Says, TakeHeader, IsOneLine;
    HeaderTaken(p.file, h);
    assert p.buf + "" == p.buf;
    FirstLineEnd(HeaderText(h), tail, p.buf, "");
    q := NextHeader(p, |HeaderText(h)|).p;
    assert p.buf[|HeaderText(h)| + 2..] == tail;
  }

  lemma HeadersEnd(p: Parser, body: string)
    requires p.buf == CRLF + body
    ensures StepHeaders(p) == Go(Parser(3, p.valid, p.file, body, p.events + [Header(p.file)]))
  {
    assert "" + (CRLF + body) == p.buf && p.buf + "" == p.buf;
    FirstLineEnd("", body, p.buf, "");
    assert p.buf[2..] == body;
  }

  /** The limit holds for no other line: one of any length is taken when it comes behind another in the same call. */
  lemma LongLineIsTaken(b: string, p: Parser, h: PartHeader, long: PartHeader, body: string)
    requires p.state == 2 && IsHeader(h) && IsWritten(long)
    requires p.buf == HeaderText(h) + (CRLF + (HeaderText(long) + (CRLF + (CRLF + body))))
    ensures var f := Says(long, Says(h, p.file));
            Step(b, p) == Go(Parser(3, p.valid, f, body, p.events + [Header(f)]))
  {
    hide IsWritten, HeaderText, Says, StepHeaders;
    var q := LineTaken(p, h, HeaderText(long) + (CRLF + (CRLF + body)));
    var r := LineTaken(q, long, CRLF + body);
    HeadersEnd(r, body);
  }

  // ---------------------------------------------------------------- messages

  /** A part as it is sent: any header lines, in any order, and its content. */
  datatype SentPart = SentPart(headers: seq<PartHeader>, content: string)

  ghost predicate IsSent(b: string, part: SentPart) {
    && Clear(part.content, CrlfDashBoundary(b), |part.content|)
    && forall i :: 0 <= i < |part.headers| ==> IsHeader(part.headers[i])
  }

  function HeaderTexts(headers: seq<PartHeader>): seq<string> {
    if headers == [] then [] else [HeaderText(headers[0])] + HeaderTexts(headers[1..])
  }

  /** What all the lines say: where two speak of the same, the later one counts. */
  function AllSay(headers: seq<PartHeader>, file: FileInfo): FileInfo {
    if headers == [] then file else AllSay(headers[1..], Says(headers[0], file))
  }

  function ItemSent(part: SentPart): Item {
    var file := AllSay(part.headers, NO_FILE);
    Item(file.name, part.content, file.filename, file.contentType)
  }

  function ItemsSent(parts: seq<SentPart>): (items: seq<Item>)
    ensures |items| == |parts| && forall i :: 0 <= i < |parts| ==> items[i] == ItemSent(parts[i])
  {
    seq(|parts|, i requires 0 <= i < |parts| => ItemSent(parts[i]))
  }

  function PartsSent(parts: seq<SentPart>): (sent: seq<Part>)
    ensures |sent| == |parts|
    ensures forall i :: 0 <= i < |parts| ==> sent[i] == Part(HeaderTexts(parts[i].headers), ItemSent(parts[i]))
  {
    seq(|parts|, i requires 0 <= i < |parts| => Part(HeaderTexts(parts[i].headers), ItemSent(parts[i])))
  }

  lemma {:induction false} HeadersTell(headers: seq<PartHeader>, file: FileInfo)
    requires forall i :: 0 <= i < |headers| ==> IsHeader(headers[i])
    ensures Tell(file, HeaderTexts(headers), AllSay(headers, file))
    decreases |headers|
  {
    hide IsWritten, HeaderText, Says, IsLine, TakeHeader;
    if headers != [] {
      var h, rest := headers[0], headers[1..];
      HeaderTaken(file, h);
      forall i | 0 <= i < |rest| ensures IsHeader(rest[i]) {
        assert rest[i] == headers[i + 1];
      }
      HeadersTell(rest, Says(h, file));
      assert HeaderTexts(headers)[1..] == HeaderTexts(rest);
    }
  }

  lemma SentIsSendable(b: string, part: SentPart)
    requires IsSent(b, part)
    ensures IsSendablePart(b, Part(HeaderTexts(part.headers), ItemSent(part)))
  {
    HeadersTell(part.headers, NO_FILE);
  }

  /**
   For every nonempty list of parts with any such header lines and every way of cutting
   their message into pieces that leaves the first delimiter whole, the calls succeed,
   the callbacks are told exactly what the lines say and the contents, in order, and the
   parser ends valid.
   */
  lemma SentPartsAreRead(b: string, parts: seq<SentPart>, pieces: seq<string>)
    requires IsBoundary(b) && parts != [] && forall i :: 0 <= i < |parts| ==> IsSent(b, parts[i])
    requires Concat(pieces) == MessageText(b, PartsSent(parts)) && FirstIsWhole(pieces, |DashBoundaryCrlf(b)|)
    ensures var r := FedAll(b, START, pieces);
            r.ok && r.p.valid && Delivered(r.p.events) == ItemsSent(parts)
  {
    hide IsSent, IsSendablePart, MessageText, FedAll, Delivered;
    forall i | 0 <= i < |parts| ensures IsSendablePart(b, PartsSent(parts)[i]) {
      SentIsSendable(b, parts[i]);
    }
    MessageIsRead(b, PartsSent(parts), ItemsSent(parts), pieces);
  }

  lemma EncodedIsParam(s: string)
    requires AllSafe(s) && s != ""
    ensures IsParam(s) && !IsBlank(s[|s| - 1])
  {
  }

  lemma EncodedNotEmpty(s: string)
    requires s != "" && IsBytes(s)
    ensures Encoded(s) != ""
  {
  }

  /** Every file name of bytes can be sent in the extended form, percent encoded, and is recovered. */
  lemma EncodedNameIsRead(charset: string, filename: string, name: string, file: FileInfo, h: PartHeader)
    requires IsBytes(filename) && filename != "" && SameIgnoringCase(charset, UTF8_PREFIX) && IsParam(name)
    requires h == DispositionHeader(DISPOSITION_NAME, "form-data", name, Extended(charset, Encoded(filename)))
    requires |HeaderText(h)| < HEADER_MAX_LENGTH
    ensures IsHeader(h) && Says(h, file).filename == filename && Says(h, file).name == name
  {
    hide HeaderText, Encoded, Decoded;
    DecodingInvertsEncoding(filename, false);
    EncodedIsSafe(filename);
    EncodedNotEmpty(filename);
    EncodedIsParam(Encoded(filename));
  }
}
