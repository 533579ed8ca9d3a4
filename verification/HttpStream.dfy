/**
 The request as it lies in the byte stream, and http_parser as an oracle over it: a machine
 that eats the stream once, in order, and reports what it meets in as many pieces as it
 likes.  Its tables are not part of this model; only what it reports is.
 */
module HttpStream {
  import opened Bytes
  import opened Common
  import opened HttpHeaders

  datatype Request = Request(line: seq<byte>, urlAt: nat, url: seq<byte>,
                             headers: seq<Header>, last: seq<byte>, bodyLen: nat)

  predicate GoodRequest(q: Request) {
    && q.urlAt + |q.url| <= |q.line| && q.line[q.urlAt..q.urlAt + |q.url|] == q.url
    && GoodHeaders(q.headers) && IsEol(q.last)
    && (q.headers == [] ==> q.bodyLen == 0)
  }

  /** Everything up to and including the blank line. */
  function Head(q: Request): (s: seq<byte>)
    ensures |s| == |q.line| + |RawAll(q.headers)| + |q.last|
  {
    q.line + RawAll(q.headers) + q.last
  }

  function FieldAt(q: Request, k: nat): nat
    requires k <= |q.headers|
  {
    |q.line| + Start(q.headers, k)
  }

  /** What the parser has reported so far. */
  datatype Cursor =
    | InUrl(seen: nat)
    | InField(k: nat, seen: nat)
    | InValue(k: nat, seen: nat)
    | HeadDone

  /** One callback; positions count from the start of the stream. */
  datatype Event =
    | OnUrl(at: nat, len: nat)
    | OnHeaderField(at: nat, len: nat)
    | OnHeaderValue(at: nat, len: nat)
    | OnHeadersComplete
    | OnBody(at: nat)
    | OnMessageComplete

  predicate UrlSeen(q: Request, c: Cursor) {
    c == InUrl(|q.url|)
  }

  predicate NameSeen(q: Request, c: Cursor) {
    c.InField? && c.k < |q.headers| && c.seen == |q.headers[c.k].name|
  }

  predicate ValueSeen(q: Request, c: Cursor) {
    c.InValue? && c.k < |q.headers| && c.seen == |q.headers[c.k].value|
  }

  /** Where the parser says that a value starts: for an empty one, past the line end. */
  function ReportedValueAt(q: Request, k: nat): nat
    requires k < |q.headers|
  {
    var h := q.headers[k];
    FieldAt(q, k) + ValueAt(h) + if h.value == [] then |h.eol| else 0
  }

  /** The callback e may come next when the parser has eaten p bytes. */
  predicate Legal(q: Request, c: Cursor, e: Event, p: nat) {
    match e
    case OnUrl(at, len) =>
      c.InUrl? && at == q.urlAt + c.seen && c.seen + len <= |q.url| && at + len <= p
    case OnHeaderField(at, len) =>
      at + len <= p &&
      if c.InField? then
        c.k < |q.headers| && at == FieldAt(q, c.k) + c.seen && c.seen + len <= |q.headers[c.k].name|
      else
        (UrlSeen(q, c) || ValueSeen(q, c)) &&
        var k := if c.InUrl? then 0 else c.k + 1;
        k < |q.headers| && at == FieldAt(q, k) && len <= |q.headers[k].name|
    case OnHeaderValue(at, len) =>
      at + len <= p &&
      if c.InValue? then
        c.k < |q.headers| && at == FieldAt(q, c.k) + ValueAt(q.headers[c.k]) + c.seen
        && c.seen + len <= |q.headers[c.k].value|
      else
        NameSeen(q, c) && at == ReportedValueAt(q, c.k) && len <= |q.headers[c.k].value|
        && (len == 0 ==> q.headers[c.k].value == [])
    case OnHeadersComplete =>
      p == |Head(q)| && if q.headers == [] then UrlSeen(q, c) else ValueSeen(q, c) && c.k == |q.headers| - 1
    case OnBody(at) =>
      c == HeadDone && q.bodyLen > 0 && at == |Head(q)| <= p
    case OnMessageComplete =>
      c == HeadDone && q.bodyLen == 0 && p == |Head(q)|
  }

  function Advance(c: Cursor, e: Event): Cursor {
    match e
    case OnUrl(_, len) => if c.InUrl? then InUrl(c.seen + len) else c
    case OnHeaderField(_, len) =>
      if c.InField? then InField(c.k, c.seen + len) else InField(if c.InValue? then c.k + 1 else 0, len)
    case OnHeaderValue(_, len) =>
      if c.InValue? then InValue(c.k, c.seen + len) else InValue(if c.InField? then c.k else 0, len)
    case _ => HeadDone
  }

  // ----- A parser that gives its best -----

  predicate CursorOk(q: Request, c: Cursor) {
    match c
    case InUrl(seen) => seen <= |q.url|
    case InField(k, seen) => k < |q.headers| && seen <= |q.headers[k].name|
    case InValue(k, seen) => k < |q.headers| && seen <= |q.headers[k].value|
    case HeadDone => true
  }

  /** Only the end of the head is left to be reported, or what comes after it. */
  predicate AtHeadEnd(q: Request, c: Cursor)
    requires CursorOk(q, c)
  {
    match c
    case InUrl(seen) => q.headers == [] && seen == |q.url|
    case InField(_, _) => false
    case InValue(k, seen) => k + 1 == |q.headers| && seen == |q.headers[k].value|
    case HeadDone => true
  }

  /** Where in the stream the next thing to be reported begins. */
  function NextPlace(q: Request, c: Cursor): nat
    requires CursorOk(q, c)
  {
    if AtHeadEnd(q, c) then |Head(q)| else
      match c
      case InUrl(seen) => if seen < |q.url| then q.urlAt + seen else FieldAt(q, 0)
      case InField(k, seen) =>
        if seen < |q.headers[k].name| then FieldAt(q, k) + seen else ReportedValueAt(q, k)
      case InValue(k, seen) =>
        if seen < |q.headers[k].value| then FieldAt(q, k) + ValueAt(q.headers[k]) + seen else FieldAt(q, k + 1)
      case HeadDone => |Head(q)|
  }

  /** Something of it lies before the limit: its first octet, or the whole head. */
  predicate Due(q: Request, c: Cursor, limit: nat)
    requires CursorOk(q, c)
  {
    if AtHeadEnd(q, c) && !(c == HeadDone && q.bodyLen > 0) then NextPlace(q, c) <= limit else NextPlace(q, c) < limit
  }

  /** The callback for as much of it as lies before the limit. */
  function NextWhole(q: Request, c: Cursor, limit: nat): Event
    requires CursorOk(q, c) && Due(q, c, limit)
  {
    var at := NextPlace(q, c);
    if AtHeadEnd(q, c) then
      if c != HeadDone then OnHeadersComplete else if q.bodyLen > 0 then OnBody(at) else OnMessageComplete
    else
      match c
      case InUrl(seen) =>
        if seen < |q.url| then OnUrl(at, Min(|q.url| - seen, limit - at))
        else OnHeaderField(at, Min(|q.headers[0].name|, limit - at))
      case InField(k, seen) =>
        if seen < |q.headers[k].name| then OnHeaderField(at, Min(|q.headers[k].name| - seen, limit - at))
        else OnHeaderValue(at, Min(|q.headers[k].value|, limit - at))
      case InValue(k, seen) =>
        if seen < |q.headers[k].value| then OnHeaderValue(at, Min(|q.headers[k].value| - seen, limit - at))
        else OnHeaderField(at, Min(|q.headers[k + 1].name|, limit - at))
      case HeadDone => OnMessageComplete
  }

  function Length(e: Event): nat {
    match e
    case OnUrl(_, len) => len
    case OnHeaderField(_, len) => len
    case OnHeaderValue(_, len) => len
    case _ => 0
  }

  /** A bound on the callbacks still to come. */
  function Work(q: Request, c: Cursor): (n: nat)
    requires CursorOk(q, c)
    ensures n > 0
  {
    match c
    case InUrl(seen) => |q.url| - seen + WorkFrom(q.headers, 0)
    case InField(k, seen) =>
      |q.headers[k].name| - seen + |q.headers[k].value| + 1 + WorkFrom(q.headers, k + 1)
    case InValue(k, seen) => |q.headers[k].value| - seen + WorkFrom(q.headers, k + 1)
    case HeadDone => 1
  }

  function WorkFrom(hs: seq<Header>, k: nat): (n: nat)
    requires k <= |hs|
    ensures n > 1
    decreases |hs| - k
  {
    if k == |hs| then 2 else |hs[k].name| + |hs[k].value| + 2 + WorkFrom(hs, k + 1)
  }

  /** The callback is legal, it comes in turn, and there is less to do after it. */
  predicate InTurn(q: Request, c: Cursor, pos: nat, limit: nat, e: Event, p: nat) {
    var c' := Advance(c, e);
    && Legal(q, c, e, p) && pos <= p <= limit
    && CursorOk(q, c) && CursorOk(q, c') && p <= NextPlace(q, c') && (c' == HeadDone ==> p == |Head(q)|)
    && (c != HeadDone ==> Work(q, c') < Work(q, c)) && EndsAt(e, p)
  }

  /** What is reported ends where the parser stands. */
  predicate EndsAt(e: Event, p: nat) {
    match e
    case OnUrl(at, len) => at + len == p
    case OnHeaderField(at, len) => at + len == p
    case OnHeaderValue(at, len) => at + len == p
    case _ => true
  }

  lemma NextWholeInTurn(q: Request, c: Cursor, pos: nat, limit: nat)
    requires GoodRequest(q) && CursorOk(q, c) && pos <= NextPlace(q, c) && Due(q, c, limit)
    ensures var e := NextWhole(q, c, limit);
            InTurn(q, c, pos, limit, e, NextPlace(q, c) + Length(e))
  {
    if AtHeadEnd(q, c) {
      HeadEndInTurn(q, c, pos, limit);
    } else {
      match c
      case InUrl(_) => UrlInTurn(q, c, pos, limit);
      case InField(_, _) => FieldInTurn(q, c, pos, limit);
      case InValue(_, _) => ValueInTurn(q, c, pos, limit);
    }
    hide InTurn;
  }

  lemma HeadEndInTurn(q: Request, c: Cursor, pos: nat, limit: nat)
    requires GoodRequest(q) && CursorOk(q, c) && pos <= NextPlace(q, c) && Due(q, c, limit) && AtHeadEnd(q, c)
    ensures InTurn(q, c, pos, limit, NextWhole(q, c, limit), NextPlace(q, c))
  {
    hide Head;
  }

  lemma UrlInTurn(q: Request, c: Cursor, pos: nat, limit: nat)
    requires GoodRequest(q) && CursorOk(q, c) && pos <= NextPlace(q, c) && Due(q, c, limit)
    requires c.InUrl? && !AtHeadEnd(q, c)
    ensures var e := NextWhole(q, c, limit);
            InTurn(q, c, pos, limit, e, NextPlace(q, c) + Length(e))
  {
    FirstLine(q);
    if q.headers != [] {
      LineGrows(q, 0);
    }
    hide Head, Start;
  }

  lemma FirstLine(q: Request)
    requires GoodRequest(q)
    ensures FieldAt(q, 0) == |q.line| <= |Head(q)| && q.urlAt + |q.url| <= |q.line|
  {
    assert q.headers[..0] == [];
  }

  lemma FieldInTurn(q: Request, c: Cursor, pos: nat, limit: nat)
    requires GoodRequest(q) && CursorOk(q, c) && pos <= NextPlace(q, c) && Due(q, c, limit) && c.InField?
    ensures var e := NextWhole(q, c, limit);
            InTurn(q, c, pos, limit, e, NextPlace(q, c) + Length(e))
  {
    LineGrows(q, c.k);
    hide Head, Start;
  }

  lemma ValueInTurn(q: Request, c: Cursor, pos: nat, limit: nat)
    requires GoodRequest(q) && CursorOk(q, c) && pos <= NextPlace(q, c) && Due(q, c, limit)
    requires c.InValue? && !AtHeadEnd(q, c)
    ensures var e := NextWhole(q, c, limit);
            InTurn(q, c, pos, limit, e, NextPlace(q, c) + Length(e))
  {
    LineGrows(q, c.k);
    if c.k + 1 < |q.headers| {
      LineGrows(q, c.k + 1);
    }
    hide Head, Start;
  }

  /** The places in one header line, in order. */
  lemma LineGrows(q: Request, k: nat)
    requires GoodRequest(q) && k < |q.headers|
    ensures var h, at := q.headers[k], FieldAt(q, k);
            && FieldAt(q, k + 1) == at + ValueAt(h) + |h.value| + |h.eol| < |Head(q)|
            && at + |h.name| < at + ValueAt(h) && 0 < |h.eol|
  {
    var hs := q.headers;
    assert hs[k] in hs;
    StartStep(hs, k);
    StartMonotone(hs, k + 1, |hs|);
    assert hs[..|hs|] == hs;
  }

  lemma AfterHead(q: Request, e: Event, p: nat)
    requires Legal(q, HeadDone, e, p)
    ensures e.OnBody? || e.OnMessageComplete?
  {
  }

  class HttpParser {
    const q: Request

    /** All that the peer sends, this request and whatever follows it. */
    const stream: seq<byte>

    /** It reports all that lies in a block, each thing in one piece, then eats the block whole, and finds
        nothing wrong with the URL. */
    const kind: bool

    /** Bytes counted as parsed, and bytes handed over. */
    var pos: nat
    var limit: nat
    var cursor: Cursor

    constructor (q: Request, rest: seq<byte>, kind: bool)
      requires GoodRequest(q)
      ensures Valid() && pos == 0 && cursor == InUrl(0) && this.q == q && stream == Head(q) + rest && this.kind == kind
    {
      this.q, stream, this.kind := q, Head(q) + rest, kind;
      pos, limit, cursor := 0, 0, InUrl(0);
    }

    predicate Valid()
      reads this
    {
      && GoodRequest(q) && Head(q) <= stream && pos <= limit <= |stream|
      && (kind ==> InStep())
    }

    /** What a kind parser has not reported yet is still before it. */
    predicate InStep()
      reads this
    {
      && CursorOk(q, cursor) && pos <= NextPlace(q, cursor)
      && (cursor == HeadDone ==> pos == |Head(q)|)
    }

    /** Nothing before the limit is left to report. */
    predicate Waiting(limit: nat)
      reads this
    {
      kind ==> CursorOk(q, cursor) && !Due(q, cursor, limit)
    }

    /** In a header name or a value nothing behind the parser is left to report. */
    lemma StepIsWaiting()
      requires Valid() && cursor.InField?
      ensures Waiting(pos)
    {
    }

    lemma Unkind()
      requires !kind
      ensures Waiting(limit)
    {
    }

    /** Start of http_parser_execute().  The precondition is the law of exactly-once feeding:
        the block handed over is what follows the bytes counted as parsed. */
    method Feed(block: seq<byte>)
      requires Valid() && pos + |block| <= |stream| && block == stream[pos..pos + |block|]
      modifies this`limit
      ensures Valid() && limit == pos + |block|
    {
      limit := pos + |block|;
    }

    /** The next callback inside the block, if there is one. */
    method NextEvent() returns (some: bool, e: Event)
      requires Valid()
      modifies this`pos, this`cursor
      ensures Valid() && pos >= old(pos)
      ensures some ==> Legal(q, old(cursor), e, pos) && cursor == Advance(old(cursor), e)
      ensures !some ==> pos == old(pos) && cursor == old(cursor) && Waiting(limit)
      ensures some && kind ==> InTurn(q, old(cursor), old(pos), limit, e, pos) && old(pos) <= pos - Length(e)
      ensures some && kind ==> e.OnBody? || e.OnMessageComplete? || WorkLeft() < old(WorkLeft())
    {
      hide Legal, NextPlace, Due, NextWhole, Work, CursorOk, AtHeadEnd, Advance, Head, GoodRequest;
      if kind {
        e, some := OnMessageComplete, Due(q, cursor, limit);
        if some {
          NextWholeInTurn(q, cursor, pos, limit);
          e := NextWhole(q, cursor, limit);
          if cursor == HeadDone {
            AfterHead(q, e, NextPlace(q, cursor) + Length(e));
          }
          pos, cursor := NextPlace(q, cursor) + Length(e), Advance(cursor, e);
        }
      } else {
        var any, p: int := *, *;
        e := any;
        some := pos <= p <= limit && Legal(q, cursor, e, p);
        if some {
          pos, cursor := p, Advance(cursor, e);
        }
      }
    }

    /** No more callbacks in the block: it was eaten whole, or the parser gave up in it. */
    method Finish() returns (whole: bool)
      requires Valid() && Waiting(limit)
      modifies this`pos
      ensures Valid() && pos >= old(pos) && (whole ==> pos == limit) && (kind ==> whole) && Waiting(limit)
    {
      whole := *;
      whole := whole || kind;
      if whole {
        pos := limit;
      }
    }

    /** How many callbacks a kind parser has left at most. */
    function WorkLeft(): (n: nat)
      requires Valid()
      reads this
      ensures n > 0
    {
      if kind then Work(q, cursor) else 1
    }
  }
}
