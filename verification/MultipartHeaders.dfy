/** The header lines of a part, from the parser's side. */
module MultipartHeaders {

  import opened Headers
  import opened MultipartSpec
  import opened Query
  import opened Text
  import opened Wrappers

  /** A name or a file name: what it holds separates neither parameters nor lines. */
  ghost predicate IsParam(s: string) {
    ';' !in s && '=' !in s && IsOneLine(s)
  }

  function Quoted(s: string): string {
    "\"" + s + "\""
  }

  lemma QuotedKeeps(s: string)
    ensures IsTrimmed(Quoted(s)) && TrimDoubleQuotes(Quoted(s)) == s
    ensures IsParam(s) ==> IsParam(Quoted(s))
  {
    assert Quoted(s)[1..|Quoted(s)| - 1] == s;
  }

  /** One parameter of the disposition. */
  function ParamText(key: string, s: string): string {
    key + "=" + Quoted(s)
  }

  /** A key that is a plain word. */
  ghost predicate IsWord(key: string) {
    IsTrimmed(key) && IsParam(key) && TrimDoubleQuotes(key) == key
  }

  lemma ParamPieces(key: string, s: string)
    requires IsWord(key) && IsParam(s)
    ensures Pieces(ParamText(key, s), '=') == [key, Quoted(s)]
  {
    QuotedKeeps(s);
    assert [key, Quoted(s)][1..] == [Quoted(s)];
    assert ParamText(key, s) == Join([key, Quoted(s)], '=');
    PiecesOfJoin([key, Quoted(s)], '=');
  }

  lemma ParamIsPiece(key: string, s: string)
    requires IsWord(key) && IsParam(s)
    ensures ';' !in ParamText(key, s) && IsTrimmed(ParamText(key, s)) && IsOneLine(ParamText(key, s))
  {
    QuotedKeeps(s);
  }

  lemma ParamRead(key: string, s: string, items: seq<Pair>)
    requires IsWord(key) && IsParam(s)
    ensures DispositionOne(ParamText(key, s), items) == Inserted(items, Pair(key, s))
  {
    ParamPieces(key, s);
    QuotedKeeps(s);
  }

  lemma Words()
    ensures IsWord("name") && IsWord("filename")
  {
  }

  // ---------------------------------------------------------------- the disposition

  /** The parameters of an item. */
  function ParamsText(item: Item): string {
    ParamText("name", item.name) + if item.filename != "" then "; " + ParamText("filename", item.filename) else ""
  }

  lemma TrimBlank(f: string)
    requires IsTrimmed(f)
    ensures Trim(" " + f) == f
  {
    var s := " " + f;
    assert s[1] == f[0] && s[|s| - 1] == f[|f| - 1];
    assert Ink(s, 1) == 1 && Ink(s, 0) == 1 && InkEnd(s, |s|) == |s|;
    assert s[1..] == f;
  }

  lemma TwoPieces(a: string, f: string)
    requires ';' !in a && IsTrimmed(a) && ';' !in f && IsTrimmed(f)
    ensures Pieces(a + "; " + f, ';') == [a, f]
  {
    var g := " " + f;
    assert [a, g][1..] == [g];
    assert a + "; " + f == Join([a, g], ';');
    FieldsOfJoin([a, g], ';');
    TrimKeeps(a);
    TrimBlank(f);
    KeptCons(a, [g]);
    KeptCons(g, []);
    assert [a] + [g] == [a, g] && [g] + [] == [g] && [f] + [] == [f];
  }

  lemma OnePiece(a: string)
    requires ';' !in a && IsTrimmed(a)
    ensures Pieces(a, ';') == [a]
  {
    PiecesOfJoin([a], ';');
  }

  lemma IntoOne(a: string, items: seq<Pair>)
    ensures DispositionInto([a], {}, items) == DispositionOne(a, items)
  {
    assert [a][1..] == [];
  }

  lemma IntoTwo(a: string, f: string)
    requires a != f
    ensures DispositionInto([a, f], {}, []) == DispositionOne(f, DispositionOne(a, []))
  {
    var x := DispositionOne(a, []);
    assert [a, f][1..] == [f] && [f][1..] == [];
    assert DispositionInto([f], {} + {a}, x) == DispositionInto([], {} + {a} + {f}, DispositionOne(f, x));
  }

  /** The parameters that are read are those of the item. */
  lemma ParamsRead(item: Item) returns (params: seq<Pair>)
    requires IsParam(item.name) && IsParam(item.filename)
    ensures params == DispositionInto(Pieces(ParamsText(item), ';'), {}, [])
    ensures Lookup(params, "name") == Some(item.name) && Lookup(params, "filename*") == None
    ensures Lookup(params, "filename") == if item.filename == "" then None else Some(item.filename)
  {
    var n := Pair("name", item.name);
    Words();
    ParamIsPiece("name", item.name);
    ParamRead("name", item.name, []);
    assert Inserted([], n) == [n];
    if item.filename == "" {
      params := OneRead(n);
    } else {
      var p := Pair("filename", item.filename);
      ParamIsPiece("filename", item.filename);
      ParamRead("filename", item.filename, [n]);
      params := TwoRead(n, p);
    }
  }

  lemma OneRead(n: Pair) returns (params: seq<Pair>)
    requires n.key == "name" && DispositionOne(ParamText(n.key, n.value), []) == [n]
    requires ';' !in ParamText(n.key, n.value) && IsTrimmed(ParamText(n.key, n.value))
    ensures params == [n] == DispositionInto(Pieces(ParamText(n.key, n.value) + "", ';'), {}, [])
    ensures Lookup(params, "name") == Some(n.value) && Lookup(params, "filename") == None
    ensures Lookup(params, "filename*") == None
  {
    var a := ParamText(n.key, n.value);
    assert a + "" == a;
    OnePiece(a);
    IntoOne(a, []);
    LookupOne(n);
    params := [n];
  }

  lemma TwoRead(n: Pair, p: Pair) returns (params: seq<Pair>)
    requires n.key == "name" && DispositionOne(ParamText(n.key, n.value), []) == [n]
    requires ';' !in ParamText(n.key, n.value) && IsTrimmed(ParamText(n.key, n.value))
    requires p.key == "filename" && DispositionOne(ParamText(p.key, p.value), [n]) == Inserted([n], p)
    requires ';' !in ParamText(p.key, p.value) && IsTrimmed(ParamText(p.key, p.value))
    ensures params ==
              DispositionInto(Pieces(ParamText(n.key, n.value) + ("; " + ParamText(p.key, p.value)), ';'), {}, [])
    ensures Lookup(params, "name") == Some(n.value) && Lookup(params, "filename") == Some(p.value)
    ensures Lookup(params, "filename*") == None
  {
    ParamsDiffer(n, p);
    TwoInto(ParamText(n.key, n.value), ParamText(p.key, p.value));
    FilenameFirst(n, p);
    LookupTwo(n, p);
    params := [p, n];
  }

  lemma ParamsDiffer(n: Pair, p: Pair)
    requires n.key == "name" && p.key == "filename"
    ensures ParamText(n.key, n.value) != ParamText(p.key, p.value)
  {
    assert ParamText(n.key, n.value)[0] == 'n' && ParamText(p.key, p.value)[0] == 'f';
  }

  lemma TwoInto(a: string, f: string)
    requires ';' !in a && IsTrimmed(a) && ';' !in f && IsTrimmed(f) && a != f
    ensures DispositionInto(Pieces(a + ("; " + f), ';'), {}, []) == DispositionOne(f, DispositionOne(a, []))
  {
    TwoPieces(a, f);
    assert a + ("; " + f) == a + "; " + f;
    IntoTwo(a, f);
  }

  lemma FilenameFirst(n: Pair, p: Pair)
    requires n.key == "name" && p.key == "filename"
    ensures Inserted([n], p) == [p, n]
  {
    assert Before(p.key, n.key);
  }

  lemma LookupOne(n: Pair)
    requires n.key == "name"
    ensures Lookup([n], "name") == Some(n.value) && Lookup([n], "filename") == None && Lookup([n], "filename*") == None
  {
    assert [n][1..] == [];
  }

  lemma LookupTwo(n: Pair, p: Pair)
    requires n.key == "name" && p.key == "filename"
    ensures Lookup([p, n], "name") == Some(n.value) && Lookup([p, n], "filename") == Some(p.value)
    ensures Lookup([p, n], "filename*") == None
  {
    assert [p, n][1..] == [n];
    LookupOne(n);
  }

  // ---------------------------------------------------------------- the lines

  lemma SameAsItself(s: string, prefix: string)
    requires |prefix| <= |s| && s[..|prefix|] == prefix
    ensures StartsIgnoringCase(s, prefix)
  {
  }

  lemma SkipOneBlank(t: string)
    requires t != "" && !IsSpace(t[0])
    ensures SkipSpace(" " + t) == t
  {
    assert (" " + t)[1..] == t;
  }

  /** A blank and a value behind a prefix. */
  lemma BehindPrefix(prefix: string, t: string, line: string)
    requires line == prefix + (" " + t) && t != "" && !IsSpace(t[0])
    ensures StartsIgnoringCase(line, prefix) && line[|prefix|..] == " " + t && SkipSpace(line[|prefix|..]) == t
  {
    assert line[..|prefix|] == prefix && line[|prefix|..] == " " + t;
    SameAsItself(line, prefix);
    SkipOneBlank(t);
  }

  lemma DispositionTextOf(text: string, t: string, line: string)
    requires text != "" && text[0] == 'n' && IsOneLine(text)
    requires t == FORM_DATA + (" " + text) && line == CONTENT_DISPOSITION + (" " + t)
    ensures DispositionText(line) == Some(text)
  {
    assert t[0] == 'f';
    BehindPrefix(CONTENT_DISPOSITION, t, line);
    BehindPrefix(FORM_DATA, text, t);
  }

  /** A name without a colon, and a value. */
  lemma NamedLine(name: string, val: string, line: string)
    requires line == (name + ":") + (" " + val) && name != "" && ':' !in name && IsTrimmed(val)
    ensures ParsedHeader(line).Some?
  {
    assert line == name + ": " + val;
    ParsedOfPrinted(name, val);
  }

  lemma HeaderNames()
    ensures ':' !in DISPOSITION_NAME && ':' !in TYPE_NAME && DISPOSITION_NAME != "" && TYPE_NAME != ""
    ensures IsOneLine(CONTENT_DISPOSITION) && IsOneLine(CONTENT_TYPE) && IsOneLine(FORM_DATA)
    ensures |CONTENT_TYPE| == 13 && CONTENT_TYPE[8] == 'T' && |CONTENT_DISPOSITION| == 20
    ensures CONTENT_DISPOSITION[8] == 'D'
  {
  }

  lemma DispositionIsHeader(t: string, line: string)
    requires line == CONTENT_DISPOSITION + (" " + t) && IsTrimmed(t)
    ensures ParsedHeader(line).Some? && !StartsIgnoringCase(line, CONTENT_TYPE)
  {
    HeaderNames();
    NamedLine(DISPOSITION_NAME, t, line);
    assert line[..|CONTENT_TYPE|][8] == line[8] == 'D';
  }

  lemma ParamsTextIsLine(item: Item)
    requires IsParam(item.name) && IsParam(item.filename)
    ensures IsTrimmed(ParamsText(item)) && ParamsText(item)[0] == 'n' && IsOneLine(ParamsText(item))
  {
    Words();
    ParamIsPiece("name", item.name);
    if item.filename != "" {
      ParamIsPiece("filename", item.filename);
    }
  }

  lemma DispositionLineText(item: Item)
    ensures DispositionLine(item) == CONTENT_DISPOSITION + (" " + (FORM_DATA + (" " + ParamsText(item))))
  {
    RegroupLine(CONTENT_DISPOSITION, FORM_DATA, item.name,
                if item.filename != "" then "; filename=\"" + item.filename + "\"" else "");
    if item.filename != "" {
      RegroupFilename(item.filename);
    }
  }

  lemma RegroupLine(c: string, f: string, name: string, more: string)
    ensures c + " " + f + " name=\"" + name + "\"" + more == c + (" " + (f + (" " + (ParamText("name", name) + more))))
  {
    assert " name=\"" == " " + ("name" + "=" + "\"");
  }

  lemma RegroupFilename(filename: string)
    ensures "; filename=\"" + filename + "\"" == "; " + ParamText("filename", filename)
  {
    assert "; filename=\"" == "; " + ("filename" + "=" + "\"");
  }

  lemma TakenFrom(file: FileInfo, line: string, text: string, params: seq<Pair>)
    requires ParsedHeader(line).Some? && !StartsIgnoringCase(line, CONTENT_TYPE) && DispositionText(line) == Some(text)
    requires params == DispositionInto(Pieces(text, ';'), {}, [])
    ensures TakeHeader(file, line) == WithParams(file, params)
  {
  }

  lemma NamesTaken(item: Item, params: seq<Pair>)
    requires Lookup(params, "name") == Some(item.name) && Lookup(params, "filename*") == None
    requires Lookup(params, "filename") == if item.filename == "" then None else Some(item.filename)
    ensures WithParams(NO_FILE, params) == Taken(true, FileInfo(item.name, item.filename, ""))
  {
  }

  lemma OneLineOf(a: string, b: string, line: string)
    requires IsOneLine(a) && IsOneLine(b) && line == a + (" " + b)
    ensures IsOneLine(line)
  {
  }

  /** The first line tells the names. */
  lemma DispositionTaken(item: Item)
    requires IsParam(item.name) && IsParam(item.filename)
    ensures TakeHeader(NO_FILE, DispositionLine(item)) == Taken(true, FileInfo(item.name, item.filename, ""))
    ensures IsOneLine(DispositionLine(item)) && DispositionLine(item) != ""
  {
    var text, line := ParamsText(item), DispositionLine(item);
    var t := FORM_DATA + (" " + text);
    ParamsTextIsLine(item);
    DispositionLineText(item);
    DispositionLineTaken(item, text, t, line);
  }

  lemma DispositionLineTaken(item: Item, text: string, t: string, line: string)
    requires IsParam(item.name) && IsParam(item.filename) && text == ParamsText(item)
    requires IsTrimmed(text) && text[0] == 'n' && IsOneLine(text)
    requires t == FORM_DATA + (" " + text) && line == CONTENT_DISPOSITION + (" " + t)
    ensures TakeHeader(NO_FILE, line) == Taken(true, FileInfo(item.name, item.filename, "")) && IsOneLine(line)
    ensures line != ""
  {
    HeaderNames();
    DispositionTextOf(text, t, line);
    TrimmedBehind(FORM_DATA, text, t);
    DispositionIsHeader(t, line);
    var params := ParamsRead(item);
    TakenFrom(NO_FILE, line, text, params);
    NamesTaken(item, params);
    OneLineOf(FORM_DATA, text, t);
    OneLineOf(CONTENT_DISPOSITION, t, line);
  }

  lemma TrimmedBehind(prefix: string, text: string, t: string)
    requires t == prefix + (" " + text) && IsTrimmed(text) && prefix != "" && !IsBlank(prefix[0])
    ensures IsTrimmed(t)
  {
  }

  /** The second line, where there is one, tells the type. */
  lemma ContentTypeTaken(file: FileInfo, contentType: string)
    requires IsTrimmed(contentType) && IsOneLine(contentType)
    ensures TakeHeader(file, TypeLine(contentType)) == Taken(true, file.(contentType := contentType))
    ensures IsOneLine(TypeLine(contentType)) && TypeLine(contentType) != ""
  {
    var line := TypeLine(contentType);
    HeaderNames();
    assert line == CONTENT_TYPE + (" " + contentType);
    NamedLine(TYPE_NAME, contentType, line);
    assert line[..|CONTENT_TYPE|] == CONTENT_TYPE && line[|CONTENT_TYPE|..] == " " + contentType;
    SameAsItself(line, CONTENT_TYPE);
    TrimBlank(contentType);
  }
}
