/** What is serialized is parsed back, whatever pieces it arrives in. */
module MultipartRoundTrip {

  import opened MultipartHeaders
  import opened MultipartParts
  import opened MultipartSpec
  import opened Sequences
  import opened Text

  // ---------------------------------------------------------------- what is printed, from the parser's side

  function Lines(item: Item): seq<string> {
    [DispositionLine(item)] + if item.contentType != "" then [TypeLine(item.contentType)] else []
  }

  /** The text behind the first delimiter. */
  function AfterOpening(b: string, items: seq<Item>): string
    requires items != []
    decreases |items|, 0
  {
    LinesText(Lines(items[0]), CRLF + BodyText(b, items[0].content, items[1..]))
  }

  function BodyText(b: string, content: string, items: seq<Item>): string
    decreases |items|, 2
  {
    content + (CrlfDashBoundary(b) + AfterDelimiter(b, items))
  }

  function AfterDelimiter(b: string, items: seq<Item>): string
    decreases |items|, 1
  {
    if items == [] then "--\r\n" else CRLF + AfterOpening(b, items)
  }

  lemma ItemBeginText(b: string, item: Item, tail: string)
    ensures ItemBegin(item, b) + tail == DashBoundaryCrlf(b) + LinesText(Lines(item), CRLF + tail)
  {
    var d, l := DashBoundaryCrlf(b), DispositionLine(item);
    if item.contentType != "" {
      var ct := TypeLine(item.contentType);
      TwoLines(l, ct, CRLF + tail);
      RegroupTwo(d, l, CRLF, ct, tail);
    } else {
      OneLine(l, CRLF + tail);
      RegroupOne(d, l, CRLF, tail);
    }
  }

  lemma OneLine(l: string, tail: string)
    ensures LinesText([l] + [], tail) == l + (CRLF + tail)
  {
    assert ([l] + [])[1..] == [];
  }

  lemma TwoLines(l: string, ct: string, tail: string)
    ensures LinesText([l] + [ct], tail) == l + (CRLF + (ct + (CRLF + tail)))
  {
    assert ([l] + [ct])[1..] == [ct] && [ct][1..] == [];
    assert LinesText([ct], tail) == ct + (CRLF + tail);
  }

  lemma RegroupTwo(d: string, l: string, n: string, ct: string, tail: string)
    ensures d + l + n + (ct + n) + n + tail == d + (l + (n + (ct + (n + (n + tail)))))
  {
  }

  lemma RegroupOne(d: string, l: string, n: string, tail: string)
    ensures d + l + n + "" + n + tail == d + (l + (n + (n + tail)))
  {
  }

  /** The delimiter that ends an item's content opens the next one, or closes the body. */
  lemma NextText(b: string, items: seq<Item>, next: string)
    requires next == Serialized(items, b) && (items != [] ==> next == DashBoundaryCrlf(b) + AfterOpening(b, items))
    ensures next == DASH + b + AfterDelimiter(b, items)
  {
    if items == [] {
      assert next == "" + (DASH + b + "--\r\n");
    } else {
      Associative(DASH + b, CRLF, AfterOpening(b, items));
    }
  }

  lemma ContentText(b: string, content: string, after: string)
    ensures content + (CrlfDashBoundary(b) + after) == content + CRLF + (DASH + b + after)
  {
  }

  lemma {:induction false} SerializedText(b: string, items: seq<Item>)
    requires items != []
    ensures Serialized(items, b) == DashBoundaryCrlf(b) + AfterOpening(b, items)
  {
    var item, rest := items[0], items[1..];
    var next := Serialized(rest, b);
    if rest != [] {
      SerializedText(b, rest);
    }
    NextText(b, rest, next);
    ContentText(b, item.content, AfterDelimiter(b, rest));
    ItemBeginText(b, item, BodyText(b, item.content, rest));
    SerializedCons(items, b, ItemBegin(item, b), item.content, next);
  }

  lemma SerializedCons(items: seq<Item>, b: string, begin: string, content: string, next: string)
    requires items != [] && begin == ItemBegin(items[0], b) && content == items[0].content
    requires next == Serialized(items[1..], b)
    ensures Serialized(items, b) == begin + (content + CRLF + next)
  {
    var end := DASH + b + "--\r\n";
    assert begin + (content + CRLF) + ItemsText(items[1..], b) + end ==
           begin + (content + CRLF + (ItemsText(items[1..], b) + end));
  }

  // ---------------------------------------------------------------- the round trip

  /** The items that can be sent. */
  ghost predicate IsSendable(b: string, item: Item) {
    && Clear(item.content, CrlfDashBoundary(b), |item.content|)
    && IsParam(item.name) && IsParam(item.filename) && |DispositionLine(item)| < HEADER_MAX_LENGTH
    && (item.contentType != "" ==> IsTrimmed(item.contentType) && IsOneLine(item.contentType))
    && (item.contentType != "" ==> |TypeLine(item.contentType)| < HEADER_MAX_LENGTH)
  }

  lemma LinesTell(b: string, item: Item)
    requires IsSendable(b, item)
    ensures Tell(NO_FILE, Lines(item), FileOf(item))
  {
    var f := FileInfo(item.name, item.filename, "");
    DispositionTaken(item);
    if item.contentType == "" {
      assert Lines(item)[1..] == [];
    } else {
      ContentTypeTaken(f, item.contentType);
      assert Lines(item)[1..] == [TypeLine(item.contentType)] && [TypeLine(item.contentType)][1..] == [];
    }
  }

  function PartOf(item: Item): Part {
    Part(Lines(item), item)
  }

  function PartsOf(items: seq<Item>): (parts: seq<Part>)
    ensures TellOf(parts, items)
  {
    seq(|items|, i requires 0 <= i < |items| => PartOf(items[i]))
  }

  lemma RestOfParts(items: seq<Item>)
    requires items != []
    ensures PartsOf(items)[1..] == PartsOf(items[1..]) && PartsOf(items)[0] == PartOf(items[0])
  {
  }

  /** What is serialized is the message of parts that print their items. */
  lemma {:induction false} PartsAreItems(b: string, items: seq<Item>)
    requires items != []
    ensures PartsText(b, PartsOf(items)) == AfterOpening(b, items)
  {
    var rest := items[1..];
    RestOfParts(items);
    if rest != [] {
      PartsAreItems(b, rest);
    }
    assert PartsAfter(b, PartsOf(rest)) == AfterDelimiter(b, rest);
  }

  /**
   The round trip: for every nonempty list of sendable items and every way of cutting
   its text into pieces that leaves the first delimiter whole, the calls succeed, the
   callbacks are told exactly the items, in order, and the parser ends valid.
   */
  lemma MultipartRoundTrip(b: string, items: seq<Item>, pieces: seq<string>)
    requires IsBoundary(b) && items != [] && forall i :: 0 <= i < |items| ==> IsSendable(b, items[i])
    requires Concat(pieces) == Serialized(items, b) && FirstIsWhole(pieces, |DashBoundaryCrlf(b)|)
    ensures var r := FedAll(b, START, pieces);
            r.ok && r.p.valid && Delivered(r.p.events) == items
  {
    SerializedText(b, items);
    PartsAreItems(b, items);
    forall i | 0 <= i < |items| ensures IsSendablePart(b, PartsOf(items)[i]) {
      LinesTell(b, items[i]);
    }
    MessageIsRead(b, PartsOf(items), items, pieces);
  }
}
