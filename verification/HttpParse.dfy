/**
 Reading one request: components/esp_http_server/src/httpd_parse.c.

 Bytes come in blocks, the parser calls back in the middle of a block, header line ends are
 overwritten in place, and parsing pauses twice, each time putting the bytes after the pause
 point back in front of the socket.
 */
module HttpParse {
  import opened Bytes
  import opened Common
  import opened HttpRecv
  import opened HttpHeaders
  import opened HttpStream

  datatype Status = IDLE | URL | HDR_FIELD | HDR_VALUE | BODY | COMPLETE | FAILED

  /** The fields of a request that the callbacks work on, and the part of the scratch buffer
      that has been filled.  `base` is where in the stream that part begins. */
  datatype View = View(base: nat, held: seq<byte>, status: Status, lastAt: nat, lastLen: nat,
                       hdrsCount: nat, contentLen: nat, remaining: nat, uri: seq<byte>)

  /** memset(dst + lo, 0, hi - lo) */
  method MemZero(dst: array<byte>, lo: nat, hi: nat)
    requires lo <= hi <= dst.Length
    modifies dst
    ensures dst[..] == old(dst[..lo]) + Fill(NUL, hi - lo) + old(dst[hi..])
  {
    forall i | lo <= i < hi {
      dst[i] := NUL;
    }
  }

  /** The scratch buffer while the k-th header is read: line ends gone up to it, the rest raw. */
  function Mixed(q: Request, s: seq<byte>, k: nat, n: nat): seq<byte>
    requires k <= |q.headers| && FieldAt(q, k) <= |q.line| + n <= |s|
  {
    StoredAll(q.headers[..k]) + s[FieldAt(q, k)..|q.line| + n]
  }

  /** The scratch buffer once the blank line is gone too. */
  function AllNulled(q: Request, s: seq<byte>, n: nat): seq<byte>
    requires |Head(q)| <= |q.line| + n <= |s|
  {
    StoredAll(q.headers) + Fill(NUL, |q.last|) + s[|Head(q)|..|q.line| + n]
  }

  lemma MixedLength(q: Request, s: seq<byte>, k: nat, n: nat)
    requires k <= |q.headers| && FieldAt(q, k) <= |q.line| + n <= |s|
    ensures |Mixed(q, s, k, n)| == n
  {
  }

  /** The k-th line, still raw, as it stands in the stream. */
  lemma RawInStream(q: Request, s: seq<byte>, k: nat)
    requires k < |q.headers| && Head(q) <= s
    ensures FieldAt(q, k) + |Raw(q.headers[k])| == FieldAt(q, k + 1) <= FieldAt(q, |q.headers|) <= |s|
    ensures s[FieldAt(q, k)..FieldAt(q, k + 1)] == Raw(q.headers[k])
  {
    hide RawAll, StoredAll, Line, Raw;
    var hs := q.headers;
    StartStep(hs, k);
    StartMonotone(hs, k + 1, |hs|);
    assert hs[..|hs|] == hs;
    var a, b := Start(hs, k), Start(hs, k + 1);
    assert RawAll(hs)[..b][a..] == Raw(hs[k]);
    assert RawAll(hs)[a..b] == RawAll(hs)[..b][a..];
    assert Head(q)[|q.line|..|q.line| + |RawAll(hs)|] == RawAll(hs);
    assert s[FieldAt(q, k)..FieldAt(q, k + 1)] == Head(q)[FieldAt(q, k)..FieldAt(q, k + 1)];
    assert Head(q)[FieldAt(q, k)..FieldAt(q, k + 1)] == RawAll(hs)[a..b];
  }

  /** Zeroing the end of the k-th line turns one mixture into the next. */
  lemma LineEndZeroed(q: Request, s: seq<byte>, k: nat, n: nat, was: seq<byte>)
    requires k < |q.headers| && Head(q) <= s && FieldAt(q, k + 1) <= |q.line| + n <= |s|
    requires FieldAt(q, k) <= FieldAt(q, k + 1) && was == Mixed(q, s, k, n)
    ensures var lo, hi := Start(q.headers, k) + |Line(q.headers[k])|, Start(q.headers, k + 1);
            lo <= hi <= |was| && was[..lo] + Fill(NUL, hi - lo) + was[hi..] == Mixed(q, s, k + 1, n)
  {
    hide RawAll, StoredAll, Line;
    var h := q.headers[k];
    RawInStream(q, s, k);
    StartStep(q.headers, k);
    var a, b := FieldAt(q, k), FieldAt(q, k + 1);
    assert s[a..|q.line| + n] == s[a..b] + s[b..|q.line| + n];
    ZeroMiddle(StoredAll(q.headers[..k]), Line(h), h.eol, s[b..|q.line| + n], was);
  }

  lemma ZeroMiddle(before: seq<byte>, text: seq<byte>, eol: seq<byte>, rest: seq<byte>, was: seq<byte>)
    requires was == before + ((text + eol) + rest)
    ensures var lo := |before| + |text|;
            was[..lo] + Fill(NUL, |eol|) + was[lo + |eol|..] == before + (text + Fill(NUL, |eol|)) + rest
  {
    assert was[..|before| + |text|] == before + text;
    assert was[|before| + |text| + |eol|..] == rest;
  }

  /** Bytes of the stream that are still raw in the mixture. */
  lemma StillRaw(q: Request, s: seq<byte>, k: nat, n: nat, i: nat)
    requires k <= |q.headers| && FieldAt(q, k) <= |q.line| + n <= |s|
    requires Start(q.headers, k) <= i < n
    ensures |Mixed(q, s, k, n)| == n && Mixed(q, s, k, n)[i] == s[|q.line| + i]
  {
  }

  /** The next request starts here: where the code pauses when the message is complete. */
  function Resume(q: Request): nat {
    if q.headers == [] then q.urlAt else |Head(q)|
  }

  /** The fields say what the parser has reported so far. */
  ghost predicate Tracks(q: Request, s: seq<byte>, c: Cursor, v: View) {
    v.base + |v.held| <= |s| &&
    match c
    case InUrl(seen) => TracksUrl(q, s, seen, v)
    case InField(k, seen) => TracksHeader(q, s, k, v) && AtField(q, k, seen, v)
    case InValue(k, seen) => TracksHeader(q, s, k, v) && AtValue(q, k, seen, v)
    case HeadDone => TracksBody(q, s, v)
  }

  ghost predicate TracksUrl(q: Request, s: seq<byte>, seen: nat, v: View) {
    && v.base == 0 && v.hdrsCount == 0 && v.held <= s
    && (v.status == IDLE || v.status == URL)
    && (v.status == IDLE ==> seen == 0)
    && (v.status == URL ==> v.lastAt == q.urlAt && v.lastLen == seen <= |q.url| && q.urlAt + seen <= |v.held|)
  }

  ghost predicate TracksHeader(q: Request, s: seq<byte>, k: nat, v: View)
    requires v.base + |v.held| <= |s|
  {
    && k < |q.headers| && v.base == |q.line| && v.hdrsCount == k && v.uri == q.url
    && Start(q.headers, k) <= |v.held| && v.held == Mixed(q, s, k, |v.held|)
  }

  ghost predicate AtField(q: Request, k: nat, seen: nat, v: View)
    requires k < |q.headers|
  {
    v.status == HDR_FIELD && v.lastAt == Start(q.headers, k) && v.lastLen == seen
  }

  ghost predicate AtValue(q: Request, k: nat, seen: nat, v: View)
    requires k < |q.headers|
  {
    && v.status == HDR_VALUE && v.lastAt == Start(q.headers, k) + ValueAt(q.headers[k]) <= |v.held|
    && v.lastLen == seen <= |q.headers[k].value|
  }

  ghost predicate TracksBody(q: Request, s: seq<byte>, v: View)
    requires v.base + |v.held| <= |s|
  {
    && v.status == BODY && v.uri == q.url && v.contentLen == v.remaining == q.bodyLen
    && v.hdrsCount == |q.headers| && |Head(q)| <= v.base + |v.held|
    && v.base + v.lastAt == Resume(q)
    && if q.headers == [] then v.base == 0 && v.held <= s
       else v.base == |q.line| && v.held == AllNulled(q, s, |v.held|)
  }

  // ----- What each callback does to the fields.  `where` is an index into the scratch buffer. -----

  function UrlStep(v: View, where: nat, len: nat): View {
    if v.status == IDLE then v.(lastAt := where, lastLen := len, status := URL)
    else if v.status == URL then v.(lastLen := v.lastLen + len)
    else v.(status := FAILED)
  }

  function Zeroed(s: seq<byte>, lo: nat, hi: nat): (z: seq<byte>)
    requires lo <= hi <= |s|
    ensures |z| == |s|
  {
    s[..lo] + Fill(NUL, hi - lo) + s[hi..]
  }

  /** cb_header_field() but for the very first header. */
  function FieldStep(v: View, where: nat, len: nat): View
    requires FieldSafe(v, where)
  {
    if v.status == HDR_VALUE then
      v.(held := Zeroed(v.held, v.lastAt + v.lastLen, where), lastAt := where, lastLen := len,
         status := HDR_FIELD, hdrsCount := v.hdrsCount + 1)
    else if v.status == HDR_FIELD then v.(lastLen := v.lastLen + len)
    else v.(status := FAILED)
  }

  /** The memory that memset() touches has been received. */
  predicate FieldSafe(v: View, where: nat) {
    v.status == HDR_VALUE ==> v.lastAt + v.lastLen <= where <= |v.held|
  }

  /** The last colon before i. */
  function ColonBefore(s: seq<byte>, i: nat): (c: int)
    requires i <= |s|
    ensures -1 <= c < i && (c >= 0 ==> s[c] == COLON)
    ensures forall j | c < j < i :: s[j] != COLON
  {
    if i == 0 then -1 else if s[i - 1] == COLON then i - 1 else ColonBefore(s, i - 1)
  }

  function PastSpaces(s: seq<byte>, i: nat): (j: nat)
    requires i <= |s|
    ensures i <= j <= |s| && (j < |s| ==> s[j] != SP) && forall k | i <= k < j :: s[k] == SP
    decreases |s| - i
  {
    if i < |s| && s[i] == SP then PastSpaces(s, i + 1) else i
  }

  /** Where a value reported at `where` is taken to begin. */
  function ValueBegin(v: View, where: nat, len: nat): nat
    requires where <= |v.held|
  {
    if len == 0 then PastSpaces(v.held, ColonBefore(v.held, where) + 1) else where
  }

  /** The two scans for an empty value stay inside what has been received. */
  predicate ValueSafe(v: View, where: nat, len: nat) {
    where <= |v.held| &&
    (v.status == HDR_FIELD && len == 0 ==> ColonBefore(v.held, where) >= 0 && ValueBegin(v, where, len) < |v.held|)
  }

  function ValueStep(v: View, where: nat, len: nat): View
    requires ValueSafe(v, where, len)
  {
    if v.status == HDR_FIELD then v.(lastAt := ValueBegin(v, where, len), lastLen := len, status := HDR_VALUE)
    else if v.status == HDR_VALUE then v.(lastLen := v.lastLen + len)
    else v.(status := FAILED)
  }

  /** Past the t-th line feed at or after i, or the end of what there is; and how many were
      still missing there. */
  function AfterLineFeeds(s: seq<byte>, i: nat, t: nat): (r: (nat, nat))
    requires i <= |s|
    ensures i <= r.0 <= |s|
    decreases |s| - i
  {
    if i == |s| || t == 0 then (i, t) else AfterLineFeeds(s, i + 1, if s[i] == LF then t - 1 else t)
  }

  /** cb_headers_complete() after at least one header, when both line ends are there. */
  function HeadStep(v: View, bodyLen: nat): View
    requires v.lastAt + v.lastLen <= |v.held|
  {
    var lo := v.lastAt + v.lastLen;
    var hi := AfterLineFeeds(v.held, lo, 2).0;
    v.(held := Zeroed(v.held, lo, hi), lastAt := hi, hdrsCount := v.hdrsCount + 1,
       contentLen := bodyLen, remaining := bodyLen, status := BODY)
  }

  // ----- Each of them keeps track of the parser -----

  lemma UrlTracks(q: Request, s: seq<byte>, c: Cursor, v: View, where: nat, len: nat, p: nat)
    requires Tracks(q, s, c, v) && Legal(q, c, OnUrl(v.base + where, len), p) && p <= v.base + |v.held|
    ensures Tracks(q, s, Advance(c, OnUrl(v.base + where, len)), UrlStep(v, where, len))
  {
  }

  lemma UrlInStream(q: Request, s: seq<byte>, held: seq<byte>)
    requires GoodRequest(q) && Head(q) <= s && held <= s && q.urlAt + |q.url| <= |held|
    ensures held[q.urlAt..q.urlAt + |q.url|] == q.url
  {
    assert q.line == Head(q)[..|q.line|] == s[..|q.line|];
    assert held[q.urlAt..q.urlAt + |q.url|] == s[q.urlAt..q.urlAt + |q.url|] == q.line[q.urlAt..q.urlAt + |q.url|];
  }

  /** The buffer restarts at the first header, with nothing in it yet. */
  lemma FirstFieldTracks(q: Request, s: seq<byte>, v: View, len: nat)
    requires q.headers != [] && Head(q) <= s
    requires v.base == FieldAt(q, 0) && v.held == [] && v.uri == q.url && v.hdrsCount == 0
    requires v.status == HDR_FIELD && v.lastAt == 0 && v.lastLen == len
    ensures Tracks(q, s, InField(0, len), v)
  {
    assert q.headers[..0] == [];
    assert Mixed(q, s, 0, 0) == [];
  }

  lemma FieldTracks(q: Request, s: seq<byte>, c: Cursor, v: View, where: nat, len: nat, p: nat)
    requires Tracks(q, s, c, v) && Head(q) <= s && !c.InUrl?
    requires Legal(q, c, OnHeaderField(v.base + where, len), p) && p <= v.base + |v.held|
    ensures FieldSafe(v, where) && (v.status == HDR_FIELD || v.status == HDR_VALUE) && (c.InField? || c.InValue?)
    ensures q.headers != []
    ensures Tracks(q, s, Advance(c, OnHeaderField(v.base + where, len)), FieldStep(v, where, len))
  {
    if c.InValue? {
      NextFieldTracks(q, s, c.k, v, where, len);
    }
  }

  lemma NextFieldTracks(q: Request, s: seq<byte>, k: nat, v: View, where: nat, len: nat)
    requires Head(q) <= s && k + 1 < |q.headers| && Tracks(q, s, InValue(k, |q.headers[k].value|), v)
    requires v.base + where == FieldAt(q, k + 1) <= v.base + |v.held|
    ensures FieldSafe(v, where) && Tracks(q, s, InField(k + 1, len), FieldStep(v, where, len))
  {
    hide RawAll, StoredAll, Line, Mixed;
    RawInStream(q, s, k);
    StartStep(q.headers, k);
    LineEndZeroed(q, s, k, |v.held|, v.held);
    MixedLength(q, s, k + 1, |v.held|);
  }

  lemma ValueTracks(q: Request, s: seq<byte>, c: Cursor, v: View, where: nat, len: nat, p: nat)
    requires GoodRequest(q) && Tracks(q, s, c, v) && Head(q) <= s
    requires Legal(q, c, OnHeaderValue(v.base + where, len), p) && p <= v.base + |v.held|
    ensures ValueSafe(v, where, len) && (c.InField? || c.InValue?) && ValueStep(v, where, len).status == HDR_VALUE
    ensures Tracks(q, s, Advance(c, OnHeaderValue(v.base + where, len)), ValueStep(v, where, len))
  {
    if c.InField? && len == 0 {
      EmptyValueBegins(q, s, c.k, v, where);
    }
  }

  /** For an empty value the parser points past the line end; back to the colon, and forward over
      the spaces, is where the value would have been. */
  lemma EmptyValueBegins(q: Request, s: seq<byte>, k: nat, v: View, where: nat)
    requires GoodRequest(q) && Head(q) <= s && v.base + |v.held| <= |s| && TracksHeader(q, s, k, v)
    requires q.headers[k].value == [] && v.base + where == ReportedValueAt(q, k) <= v.base + |v.held|
    ensures ColonBefore(v.held, where) >= 0
    ensures ValueBegin(v, where, 0) == Start(q.headers, k) + ValueAt(q.headers[k]) < |v.held|
  {
    EmptyLine(q, s, k, v);
    hide Mixed, RawAll, StoredAll, Raw, Line;
    var a, h := Start(q.headers, k), q.headers[k];
    var colon := ColonBefore(v.held, where);
    assert v.held[a + |h.name|] == COLON;
    assert colon == a + |h.name|;
    assert v.held[a + ValueAt(h)] != SP;
  }

  /** A line without a value, byte by byte, still raw. */
  lemma EmptyLine(q: Request, s: seq<byte>, k: nat, v: View)
    requires GoodRequest(q) && Head(q) <= s && v.base + |v.held| <= |s|
    requires TracksHeader(q, s, k, v) && q.headers[k].value == []
    requires ReportedValueAt(q, k) <= v.base + |v.held|
    ensures var a, h := Start(q.headers, k), q.headers[k];
      && 0 < |h.eol| && a + ValueAt(h) + |h.eol| <= |v.held|
      && v.held[a + |h.name|] == COLON
      && (forall i | a + |h.name| < i < a + ValueAt(h) :: v.held[i] == SP)
      && (forall i | a + ValueAt(h) <= i < a + ValueAt(h) + |h.eol| :: v.held[i] != COLON)
      && v.held[a + ValueAt(h)] != SP
  {
    hide RawAll, StoredAll, Raw, Line, Mixed;
    RawInStream(q, s, k);
    var a, h := Start(q.headers, k), q.headers[k];
    assert h in q.headers;
    EmptyRaw(h);
    forall i | a <= i < a + |Raw(h)| ensures v.held[i] == Raw(h)[i - a] {
      StillRaw(q, s, k, |v.held|, i);
      assert s[FieldAt(q, k)..FieldAt(q, k + 1)][i - a] == s[|q.line| + i];
    }
  }

  /** The same of the line by itself. */
  lemma EmptyRaw(h: Header)
    requires GoodHeader(h) && h.value == []
    ensures 0 < |h.eol| && |Raw(h)| == ValueAt(h) + |h.eol| && Raw(h)[|h.name|] == COLON
    ensures forall i | |h.name| < i < ValueAt(h) :: Raw(h)[i] == SP
    ensures forall i | ValueAt(h) <= i < |Raw(h)| :: Raw(h)[i] != COLON && Raw(h)[i] != SP
  {
  }

  lemma HeadTracks(q: Request, s: seq<byte>, v: View)
    requires GoodRequest(q) && Head(q) <= s && q.headers != [] && |Head(q)| <= v.base + |v.held|
    requires var k := |q.headers| - 1; Tracks(q, s, InValue(k, |q.headers[k].value|), v)
    ensures var lo := v.lastAt + v.lastLen;
            lo + 2 <= |v.held| && AfterLineFeeds(v.held, lo, 2).1 == 0
    ensures Tracks(q, s, HeadDone, HeadStep(v, q.bodyLen))
  {
    hide Tracks, AllNulled, RawAll, StoredAll, Line, Head, AfterLineFeeds;
    HeadEnd(q, s, v);
    var h := q.headers[|q.headers| - 1];
    assert h in q.headers;
    TwoLineFeeds(v.held, v.lastAt + v.lastLen, h.eol, q.last);
    BodyTracks(q, s, HeadStep(v, q.bodyLen));
  }

  lemma BodyTracks(q: Request, s: seq<byte>, v: View)
    requires |Head(q)| <= v.base + |v.held| <= |s| && q.headers != [] && v.base == |q.line|
    requires v.status == BODY && v.uri == q.url && v.contentLen == v.remaining == q.bodyLen
    requires v.hdrsCount == |q.headers| && v.base + v.lastAt == |Head(q)| && v.held == AllNulled(q, s, |v.held|)
    ensures Tracks(q, s, HeadDone, v)
  {
  }

  lemma TwoLineFeeds(s: seq<byte>, lo: nat, eol: seq<byte>, last: seq<byte>)
    requires IsEol(eol) && IsEol(last) && lo + |eol| + |last| <= |s|
    requires s[lo..lo + |eol| + |last|] == eol + last
    ensures AfterLineFeeds(s, lo, 2) == (lo + |eol| + |last|, 0)
  {
    var m, hi := lo + |eol| - 1, lo + |eol| + |last|;
    forall i | lo <= i < hi ensures s[i] == (eol + last)[i - lo] {
      assert s[lo..hi][i - lo] == s[i];
    }
    SkipToLineFeed(s, lo, m, 2);
    SkipToLineFeed(s, m + 1, hi - 1, 1);
  }

  lemma {:induction false} SkipToLineFeed(s: seq<byte>, i: nat, m: nat, t: nat)
    requires i <= m < |s| && t > 0 && s[m] == LF && forall j | i <= j < m :: s[j] != LF
    ensures AfterLineFeeds(s, i, t) == AfterLineFeeds(s, m + 1, t - 1)
    decreases m - i
  {
    if i < m {
      SkipToLineFeed(s, i + 1, m, t);
    }
  }

  /** The rest of the last line and the blank line, as they stand when the head is complete. */
  lemma HeadEnd(q: Request, s: seq<byte>, v: View)
    requires Head(q) <= s && q.headers != [] && |Head(q)| <= v.base + |v.held|
    requires var k := |q.headers| - 1; Tracks(q, s, InValue(k, |q.headers[k].value|), v)
    ensures var h := q.headers[|q.headers| - 1];
            var lo, hi := v.lastAt + v.lastLen, |Head(q)| - v.base;
            && lo + |h.eol| + |q.last| == hi <= |v.held| && v.held[lo..hi] == h.eol + q.last
            && Zeroed(v.held, lo, hi) == AllNulled(q, s, |v.held|)
    ensures v.base == |q.line| && v.uri == q.url && v.hdrsCount + 1 == |q.headers| && v.base + |v.held| <= |s|
  {
    hide RawAll, StoredAll, Line, Zeroed;
    var hs, k, n := q.headers, |q.headers| - 1, |v.held|;
    var h := hs[k];
    RawInStream(q, s, k);
    StartStep(hs, k);
    assert hs[..k + 1] == hs;
    var a, b, c := FieldAt(q, k), FieldAt(q, k + 1), |Head(q)|;
    assert s[..c] == Head(q) && s[b..c] == Head(q)[b..] == q.last;
    assert s[a..|q.line| + n] == s[a..b] + s[b..c] + s[c..|q.line| + n];
    TwoEnds(StoredAll(hs[..k]), Line(h), h.eol, q.last, s[c..|q.line| + n], v.held);
  }

  lemma TwoEnds(before: seq<byte>, text: seq<byte>, eol: seq<byte>, last: seq<byte>, rest: seq<byte>, was: seq<byte>)
    requires was == before + ((text + eol) + last + rest)
    ensures var lo, hi := |before| + |text|, |before| + |text| + |eol| + |last|;
            && was[lo..hi] == eol + last
            && Zeroed(was, lo, hi) == before + (text + Fill(NUL, |eol|)) + Fill(NUL, |last|) + rest
  {
    var lo, hi := |before| + |text|, |before| + |text| + |eol| + |last|;
    assert was == (before + text) + (eol + last) + rest;
    assert Fill(NUL, hi - lo) == Fill(NUL, |eol|) + Fill(NUL, |last|);
  }

  /** A request without headers: the fields still point at the URL. */
  lemma BareHeadTracks(q: Request, s: seq<byte>, v: View, v': View)
    requires GoodRequest(q) && Head(q) <= s && q.headers == [] && |Head(q)| <= v.base + |v.held|
    requires v.status == URL && Tracks(q, s, InUrl(|q.url|), v)
    requires v' == v.(uri := q.url, contentLen := q.bodyLen, remaining := q.bodyLen, status := BODY)
    ensures Tracks(q, s, HeadDone, v')
  {
  }

  /** More bytes of the stream at the end of the buffer change nothing of what is tracked. */
  lemma MoreTracks(q: Request, s: seq<byte>, c: Cursor, v: View, v': View)
    requires Tracks(q, s, c, v) && v.base + |v'.held| <= |s| && |v.held| <= |v'.held|
    requires v' == v.(held := v.held + s[v.base + |v.held|..v.base + |v'.held|])
    ensures Tracks(q, s, c, v')
  {
    hide RawAll, StoredAll, Mixed, AllNulled;
    var n, m := v.base + |v.held|, v.base + |v'.held|;
    match c
    case InUrl(_) =>
    case HeadDone =>
      MoreBody(q, s, v, m - v.base);
    case _ =>
      MoreMixed(q, s, c.k, |v.held|, m - |q.line|);
  }

  lemma MoreMixed(q: Request, s: seq<byte>, k: nat, n: nat, m: nat)
    requires k <= |q.headers| && FieldAt(q, k) <= |q.line| + n && n <= m && |q.line| + m <= |s|
    ensures Mixed(q, s, k, m) == Mixed(q, s, k, n) + s[|q.line| + n..|q.line| + m]
  {
    hide RawAll, StoredAll;
    var a := FieldAt(q, k);
    assert s[a..|q.line| + m] == s[a..|q.line| + n] + s[|q.line| + n..|q.line| + m];
  }

  lemma MoreBody(q: Request, s: seq<byte>, v: View, m: nat)
    requires v.base + |v.held| <= |s| && TracksBody(q, s, v) && |v.held| <= m && v.base + m <= |s|
    ensures TracksBody(q, s, v.(held := v.held + s[v.base + |v.held|..v.base + m]))
  {
    hide RawAll, StoredAll;
    var n := v.base + |v.held|;
    if q.headers != [] {
      assert s[|Head(q)|..v.base + m] == s[|Head(q)|..n] + s[n..v.base + m];
    }
  }

  /** Every position the parser reports lies at or after the start of the buffer. */
  lemma EventInBuffer(q: Request, s: seq<byte>, c: Cursor, v: View, e: Event, p: nat)
    requires Tracks(q, s, c, v) && Legal(q, c, e, p)
    ensures match e
      case OnUrl(at, _) => v.base <= at
      case OnHeaderField(at, _) => v.base <= at
      case OnHeaderValue(at, _) => v.base <= at
      case OnBody(at) => v.base <= at
      case _ => true
  {
  }

  /** The first header field: what precedes it is the request line. */
  lemma FirstFieldPlace(q: Request, s: seq<byte>, c: Cursor, v: View, where: nat, len: nat, p: nat)
    requires GoodRequest(q) && Head(q) <= s && Tracks(q, s, c, v) && c.InUrl?
    requires Legal(q, c, OnHeaderField(v.base + where, len), p) && p <= v.base + |v.held|
    ensures FieldSafe(v, where) && v.base == 0 && v.hdrsCount == 0 && where <= p - len && where == FieldAt(q, 0)
    ensures q.headers != [] && Advance(c, OnHeaderField(v.base + where, len)) == InField(0, len)
    ensures v.held[where..] + s[|v.held|..] == s[where..]
    ensures v.status == URL ==> v.lastAt + v.lastLen <= |v.held| && v.held[v.lastAt..v.lastAt + v.lastLen] == q.url
    ensures v.status == URL || (v.status == IDLE && q.url == [])
  {
    assert v.held == s[..|v.held|];
    if v.status == URL {
      UrlInStream(q, s, v.held);
    }
  }

  /** What is known of the fields v when a header field is reported at index where. */
  ghost predicate FieldAhead(q: Request, s: seq<byte>, c: Cursor, v: View, where: nat, len: nat) {
    && FieldSafe(v, where) && where <= |v.held| && v.base + |v.held| <= |s| && q.headers != [] && Head(q) <= s
    && if c.InUrl? then
         && v.base == 0 && v.hdrsCount == 0 && where == FieldAt(q, 0) && v.held[where..] + s[|v.held|..] == s[where..]
         && (v.status == URL || (v.status == IDLE && q.url == [])) && c == InUrl(|q.url|)
         && (v.status == URL ==> v.lastAt + v.lastLen <= |v.held| && v.held[v.lastAt..v.lastAt + v.lastLen] == q.url)
       else
         && (c.InField? || c.InValue?) && (v.status == HDR_FIELD || v.status == HDR_VALUE)
         && Tracks(q, s, Advance(c, OnHeaderField(v.base + where, len)), FieldStep(v, where, len))
  }

  lemma FieldPlace(q: Request, s: seq<byte>, c: Cursor, v: View, where: nat, len: nat, p: nat)
    requires GoodRequest(q) && Head(q) <= s && Tracks(q, s, c, v)
    requires Legal(q, c, OnHeaderField(v.base + where, len), p) && p <= v.base + |v.held| <= |s|
    ensures FieldAhead(q, s, c, v, where, len)
  {
    assert where <= |v.held|;
    assert c.InUrl? ==> c == InUrl(|q.url|);
    hide Tracks, Legal;
    if c.InUrl? {
      FirstFieldPlace(q, s, c, v, where, len, p);
    } else {
      FieldTracks(q, s, c, v, where, len, p);
    }
  }

  /** What is known of the fields v when the head is complete. */
  ghost predicate HeadAhead(q: Request, s: seq<byte>, c: Cursor, v: View) {
    && GoodRequest(q) && Head(q) <= s && Tracks(q, s, c, v)
    && |Head(q)| <= v.base + |v.held| && (v.status == IDLE || v.lastAt + v.lastLen <= |v.held|)
    && if q.headers == [] then
         && c == InUrl(|q.url|) && (v.status == URL || (v.status == IDLE && q.url == []))
         && (v.status == URL ==> v.held[v.lastAt..v.lastAt + v.lastLen] == q.url)
       else
         && c.InValue? && v.status == HDR_VALUE && Tracks(q, s, HeadDone, HeadStep(v, q.bodyLen))
         && v.lastAt + v.lastLen + 2 <= |v.held| && AfterLineFeeds(v.held, v.lastAt + v.lastLen, 2).1 == 0
  }

  lemma HeadPlace(q: Request, s: seq<byte>, c: Cursor, v: View, p: nat)
    requires GoodRequest(q) && Head(q) <= s && Tracks(q, s, c, v)
    requires Legal(q, c, OnHeadersComplete, p) && p <= v.base + |v.held|
    ensures HeadAhead(q, s, c, v)
  {
    if q.headers == [] {
      if v.status == URL {
        UrlInStream(q, s, v.held);
      }
    } else {
      HeadTracks(q, s, v);
    }
  }

  /** What is known of the fields v when the head is past. */
  ghost predicate BodyAhead(q: Request, s: seq<byte>, v: View) {
    && v.lastAt <= |v.held| && v.base + |v.held| <= |s| && v.base + v.lastAt == Resume(q)
    && v.held[v.lastAt..] + s[v.base + |v.held|..] == s[Resume(q)..] && StoredAll(q.headers) <= v.held
    && v.status == BODY && v.uri == q.url && v.contentLen == v.remaining == q.bodyLen && v.hdrsCount == |q.headers|
  }

  /** At the end of the head the fields point at the next request, still raw in the buffer. */
  lemma BodyPlace(q: Request, s: seq<byte>, v: View)
    requires GoodRequest(q) && Head(q) <= s && Tracks(q, s, HeadDone, v)
    ensures BodyAhead(q, s, v)
  {
    hide RawAll;
    var n := v.base + |v.held|;
    if q.headers == [] {
      assert v.held == s[..n];
    } else {
      var m := |Head(q)|;
      assert v.held[..|StoredAll(q.headers)|] == StoredAll(q.headers);
      assert v.held[v.lastAt..] == s[m..n];
      assert s[m..n] + s[n..] == s[m..];
    }
  }

  lemma NothingDueAtStart(q: Request)
    requires GoodRequest(q)
    ensures CursorOk(q, InUrl(0)) && !Due(q, InUrl(0), 0)
  {
    assert |Head(q)| > 0;
  }

  /** Where the connection stands once a request has been dealt with. */
  function NextRequest(q: Request): nat {
    Resume(q) + q.bodyLen
  }

  /** Keep-alive framing holds exactly for requests with at least one header; without any, the
      next request is read from the URL of this one. */
  lemma FramedIffHeaders(q: Request)
    requires GoodRequest(q)
    ensures NextRequest(q) == |Head(q)| + q.bodyLen <==> q.headers != []
  {
    if q.headers == [] {
      assert |Head(q)| > q.urlAt;
    }
  }

  /** CONFIG_HTTPD_PURGE_BUF_LEN */
  const PURGE_BUF_LEN: nat := 32

  class HttpdReq {
    const conn: Conn
    const parser: HttpParser
    const maxUri: nat
    const maxHdr: nat

    var scratch: array<byte>
    var scratchLimit: nat
    var status: Status
    var lastAt: nat
    var lastLen: nat
    var paused: bool
    var preParsed: int
    var rawLen: nat
    var hdrsCount: nat
    var contentLen: nat
    var remaining: nat
    var uri: seq<byte>

    /** Where in the stream scratch[0] comes from. */
    ghost var base: nat

    ghost function Fields(n: nat): (v: View)
      requires n <= scratch.Length
      reads this, scratch
      ensures |v.held| == n
    {
      View(base, scratch[..n], status, lastAt, lastLen, hdrsCount, contentLen, remaining, uri)
    }

    ghost predicate Sound()
      reads this`scratch, this`scratchLimit, conn, parser
    {
      Placed() && conn.Valid() && !conn.dead
    }

    ghost predicate Placed()
      reads this`scratch, this`scratchLimit, parser
    {
      && scratch != conn.pendingData && parser.Valid()
      && PARSER_BLOCK_SIZE <= maxUri && PARSER_BLOCK_SIZE <= maxHdr
      && (scratchLimit == maxUri || scratchLimit == maxHdr)
    }

    /** n bytes of the stream, from base on, are in the scratch buffer; the rest is to come. */
    ghost predicate Holds(n: nat)
      reads this, conn, conn.pendingData, parser
    {
      && Sound() && n <= scratch.Length && base + n <= |parser.stream|
      && conn.Stream() == parser.stream[base + n..]
    }

    /** In a callback: the whole block read last is in the buffer and nothing is put back. */
    ghost predicate InBlock()
      reads this`scratch, this`scratchLimit, this`paused, this`rawLen, this`base, conn, parser
    {
      && Sound() && !paused && rawLen <= scratch.Length && base + rawLen == parser.limit
      && conn.pendingLen == 0 && conn.unread == parser.stream[parser.limit..]
    }

    /** httpd_req_new() up to the parser: a session with bytes put back by the request before. */
    constructor (conn: Conn, parser: HttpParser, maxUri: nat, maxHdr: nat)
      requires conn.Valid() && parser.Valid() && !conn.dead
      requires PARSER_BLOCK_SIZE <= maxUri && PARSER_BLOCK_SIZE <= maxHdr
      requires conn.Stream() == parser.stream && parser.pos == 0 && parser.cursor == InUrl(0)
      ensures this.conn == conn && this.parser == parser && this.maxUri == maxUri && this.maxHdr == maxHdr
      ensures fresh(scratch) && AtTop(0)
    {
      this.conn, this.parser, this.maxUri, this.maxHdr := conn, parser, maxUri, maxHdr;
      scratch := new byte[0];
      scratchLimit, status, lastAt, lastLen, paused, preParsed, rawLen := maxUri, IDLE, 0, 0, false, 0, 0;
      hdrsCount, contentLen, remaining, uri := 0, 0, 0, [];
      base := 0;
      new;
      NothingDueAtStart(parser.q);
    }

    /** All is for the best: parser and peer are kind, and the request keeps within the limits.  One without
        headers has to fit into a block from its URL on, with all that is sent after it. */
    predicate Favoured() {
      var q := parser.q;
      && parser.kind && conn.prompt && q.url != [] && |q.line| < maxUri && |Head(q)| - |q.line| < maxHdr
      && (q.bodyLen > 0 ==> |Head(q)| < |parser.stream|)
      && (q.headers == [] ==> |Head(q)| <= maxUri && |parser.stream| <= q.urlAt + PARSER_BLOCK_SIZE)
    }

    lemma InBlockMeans()
      requires InBlock()
      ensures !paused && rawLen <= scratch.Length && scratch != conn.pendingData && parser.Valid()
    {
    }

    /** pause_parsing() */
    method PauseParsing(where: nat) returns (ok: bool)
      requires InBlock()
      modifies this`preParsed, this`paused, conn, conn.pendingData
      ensures conn.unread == old(conn.unread)
      ensures ok ==> PausedAt(base, scratch[..rawLen], where)
      ensures ok <==> where <= rawLen <= where + PARSER_BLOCK_SIZE
    {
      var unparsed := rawLen - where;
      if unparsed < 0 {
        return false;
      }
      if unparsed != 0 {
        var n := conn.Unrecv(scratch, where, unparsed);
        if n != unparsed {
          return false;
        }
      }
      SliceRest(scratch[..], where, rawLen);
      preParsed, paused, ok := unparsed, true, true;
    }

    /** Parsing stopped at index where of the bytes held, which begin at stream position from;
        the bytes from there on are back in front of the socket. */
    ghost predicate PausedAt(from: nat, held: seq<byte>, where: nat)
      reads this`paused, this`preParsed, conn, conn.pendingData
    {
      && where <= |held| && paused && conn.Valid() && !conn.dead
      && preParsed == conn.pendingLen == |held| - where
      && from + |held| <= |parser.stream|
      && conn.Stream() == held[where..] + parser.stream[from + |held|..]
    }

    /** verify_url(): the URL is copied out; method, version and syntax are the parser's business. */
    method VerifyUrl() returns (ok: bool)
      requires lastAt + lastLen <= rawLen <= scratch.Length
      modifies this`uri
      ensures uri == scratch[..rawLen][lastAt..lastAt + lastLen]
      ensures parser.kind ==> ok
    {
      uri := scratch[lastAt..lastAt + lastLen];
      SliceOfPrefix(scratch[..], lastAt, lastAt + lastLen, rawLen);
      ok := *;
      ok := ok || parser.kind;
    }

    /** cb_url() */
    method CbUrl(where: nat, len: nat) returns (ok: bool)
      requires rawLen <= scratch.Length
      modifies this`status, this`lastAt, this`lastLen
      ensures ok ==> Fields(rawLen) == UrlStep(old(Fields(rawLen)), where, len) && status != FAILED
      ensures !ok ==> status == FAILED
      ensures ok <==> (old(status) == IDLE && len <= maxUri) || (old(status) == URL && old(lastLen) + len <= maxUri)
    {
      if status == IDLE {
        lastAt, lastLen, status := where, 0, URL;
      } else if status != URL {
        status := FAILED;
        return false;
      }
      lastLen := lastLen + len;
      ok := lastLen <= maxUri;
      if !ok {
        status := FAILED;
      }
    }

    /** cb_header_field() */
    method CbHeaderField(where: nat, len: nat) returns (ok: bool)
      requires InBlock() && FieldSafe(Fields(rawLen), where) && (status == URL ==> lastAt + lastLen <= rawLen)
      requires status == HDR_VALUE ==> scratchLimit == maxHdr
      modifies this, scratch, conn, conn.pendingData
      ensures scratch == old(scratch) && rawLen == old(rawLen)
      ensures !ok ==> status == FAILED
      ensures ok && old(status) == URL ==>
        FirstFieldDone(old(Fields(rawLen)), where, len) && conn.unread == old(conn.unread)
      ensures ok && old(status) != URL ==> scratchLimit == old(scratchLimit)
      ensures ok && old(status) != URL ==>
        InBlock() && Fields(rawLen) == FieldStep(old(Fields(rawLen)), where, len) && status != FAILED
      ensures old(status) == HDR_VALUE || old(status) == HDR_FIELD ==> ok
      ensures old(status) == URL && parser.kind && where <= rawLen <= where + PARSER_BLOCK_SIZE ==> ok
    {
      if status == URL {
        ok := FirstField(where, len);
        if !ok {
          status := FAILED;
        }
      } else if status == HDR_VALUE {
        NextField(where, len);
        ok := true;
      } else if status != HDR_FIELD {
        status := FAILED;
        ok := false;
      } else {
        lastLen := lastLen + len;
        ok := true;
      }
    }

    /** The first header: the request line is done with, and parsing pauses here. */
    method FirstField(where: nat, len: nat) returns (ok: bool)
      requires InBlock() && lastAt + lastLen <= rawLen
      modifies this`uri, this`lastAt, this`lastLen, this`status, this`scratchLimit, this`base,
               this`preParsed, this`paused, conn, conn.pendingData
      ensures ok ==> FirstFieldDone(old(Fields(rawLen)), where, len) && conn.unread == old(conn.unread)
      ensures parser.kind && where <= rawLen <= where + PARSER_BLOCK_SIZE ==> ok
    {
      hide Conn.Stream, Conn.Pending, HttpParser.Valid, InBlock, PausedAt;
      InBlockMeans();
      ghost var v := Fields(rawLen);
      ok := VerifyUrl();
      if ok {
        OnToHeaders();
        lastAt, lastLen, status := 0, len, HDR_FIELD;
        ok := PauseParsing(where);
        assert scratch[..rawLen] == v.held;
        base := base + where;
      }
      assert ok ==> FirstFieldDone(v, where, len);
    }

    /** The buffer is for headers from now on. */
    method OnToHeaders()
      requires InBlock()
      modifies this`scratchLimit
      ensures InBlock() && scratchLimit == maxHdr
    {
      hide Conn.Valid, HttpParser.Valid;
      scratchLimit := maxHdr;
    }

    /** What the first field leaves, v being the fields before. */
    ghost predicate FirstFieldDone(v: View, where: nat, len: nat)
      reads this, conn, conn.pendingData, parser
    {
      && where <= |v.held| && v.lastAt + v.lastLen <= |v.held|
      && PausedAt(v.base, v.held, where) && base == v.base + where
      && scratch != conn.pendingData && scratchLimit == maxHdr
      && status == HDR_FIELD && lastAt == 0 && lastLen == len && hdrsCount == v.hdrsCount
      && uri == v.held[v.lastAt..v.lastAt + v.lastLen]
    }

    /** A header after another: the line end in between is overwritten. */
    method NextField(where: nat, len: nat)
      requires InBlock() && status == HDR_VALUE && FieldSafe(Fields(rawLen), where) && scratchLimit == maxHdr
      modifies this`status, this`lastAt, this`lastLen, this`scratchLimit, this`hdrsCount, scratch
      ensures InBlock() && Fields(rawLen) == FieldStep(old(Fields(rawLen)), where, len)
      ensures status == HDR_FIELD && scratchLimit == old(scratchLimit)
    {
      hide Conn.Valid, HttpParser.Valid;
      ghost var was := scratch[..];
      MemZero(scratch, lastAt + lastLen, where);
      ZeroedPrefix(was, scratch[..], rawLen, lastAt + lastLen, where);
      lastAt, lastLen, status, scratchLimit := where, 0, HDR_FIELD, maxHdr;
      hdrsCount := hdrsCount + 1;
      lastLen := lastLen + len;
    }

    /** cb_header_value() */
    method CbHeaderValue(where: nat, len: nat) returns (ok: bool)
      requires rawLen <= scratch.Length && ValueSafe(Fields(rawLen), where, len)
      modifies this`status, this`lastAt, this`lastLen
      ensures Fields(rawLen) == ValueStep(old(Fields(rawLen)), where, len)
      ensures ok <==> status != FAILED
    {
      if status == HDR_FIELD {
        lastAt, lastLen, status := where, 0, HDR_VALUE;
        if len == 0 {
          lastAt := EmptyValueAt(where);
        }
      } else if status != HDR_VALUE {
        status := FAILED;
        return false;
      }
      lastLen := lastLen + len;
      ok := true;
    }

    method EmptyValueAt(where: nat) returns (at: nat)
      requires where <= rawLen <= scratch.Length && ColonBefore(scratch[..rawLen], where) >= 0
      requires PastSpaces(scratch[..rawLen], ColonBefore(scratch[..rawLen], where) + 1) < rawLen
      ensures at == PastSpaces(scratch[..rawLen], ColonBefore(scratch[..rawLen], where) + 1)
    {
      ghost var held := scratch[..rawLen];
      at := where - 1;
      while scratch[at] != COLON
        invariant at < where && ColonBefore(held, where) == ColonBefore(held, at + 1)
        decreases at
      {
        at := at - 1;
      }
      at := at + 1;
      ghost var end := PastSpaces(held, at);
      while scratch[at] == SP
        invariant at <= end == PastSpaces(held, at)
        decreases end - at
      {
        at := at + 1;
      }
    }

    /** cb_headers_complete(); bodyLen is the content length the parser has worked out. */
    method CbHeadersComplete(bodyLen: nat) returns (ok: bool)
      requires InBlock() && (status == IDLE || lastAt + lastLen <= rawLen)
      modifies this`uri, this`status, this`lastAt, this`hdrsCount, this`contentLen, this`remaining, scratch
      ensures InBlock()
      ensures if ok then status == BODY else status == FAILED
      ensures ok ==> old(status) == URL || old(status) == HDR_VALUE
      ensures old(status) == URL && ok ==>
        var v := old(Fields(rawLen));
        Fields(rawLen) == v.(uri := v.held[v.lastAt..v.lastAt + v.lastLen], contentLen := bodyLen,
                             remaining := bodyLen, status := BODY)
      ensures old(status) == HDR_VALUE && ok ==> Fields(rawLen) == HeadStep(old(Fields(rawLen)), bodyLen)
      ensures old(status) == URL && parser.kind ==> ok
      ensures old(status) == HDR_VALUE ==>
        var lo := old(lastAt + lastLen);
        ok <==> lo + 2 <= rawLen && AfterLineFeeds(old(scratch[..rawLen]), lo, 2).1 == 0
    {
      hide AfterLineFeeds, Zeroed, InBlock;
      InBlockMeans();
      if status == URL {
        ok := VerifyUrl();
      } else if status == HDR_VALUE {
        ok := EndHeaders();
      } else {
        ok := false;
      }
      if !ok {
        status := FAILED;
        return;
      }
      contentLen, remaining, status := bodyLen, bodyLen, BODY;
    }

    /** The line ends from the last value on are overwritten, up to the second line feed. */
    method EndHeaders() returns (ok: bool)
      requires InBlock() && lastAt + lastLen <= rawLen
      modifies this`lastAt, this`hdrsCount, scratch
      ensures InBlock()
      ensures var held, lo := old(scratch[..rawLen]), old(lastAt + lastLen);
        && (ok <==> lo + 2 <= |held| && AfterLineFeeds(held, lo, 2).1 == 0)
        && (ok ==> var hi := AfterLineFeeds(held, lo, 2).0;
                   scratch[..rawLen] == Zeroed(held, lo, hi) && lastAt == hi && hdrsCount == old(hdrsCount) + 1)
    {
      hide AfterLineFeeds, Zeroed;
      ghost var held := scratch[..rawLen];
      var lo := lastAt + lastLen;
      ZeroedNothing(held, lo);
      var left := rawLen - lo;
      if left < 2 {
        return false;
      }
      var at, terminators := lo, 2;
      while left != 0 && terminators != 0
        invariant left == rawLen - at && lo <= at <= rawLen
        invariant AfterLineFeeds(held, lo, 2) == AfterLineFeeds(held, at, terminators)
        invariant scratch[..rawLen] == Zeroed(held, lo, at)
        modifies scratch
      {
        left := left - 1;
        ZeroedOneMore(held, lo, at);
        NextLineFeed(held, at, terminators);
        if scratch[at] == LF {
          terminators := terminators - 1;
        }
        scratch[at] := NUL;
        at := at + 1;
      }
      NextLineFeed(held, at, terminators);
      if terminators != 0 {
        return false;
      }
      lastAt, hdrsCount, ok := at, hdrsCount + 1, true;
    }

    /** cb_on_body() */
    method CbOnBody(where: nat) returns (ok: bool)
      requires InBlock()
      modifies this`status, this`lastAt, this`lastLen, this`preParsed, this`paused, conn, conn.pendingData
      ensures ok <==> old(status) == BODY && where <= rawLen <= where + PARSER_BLOCK_SIZE
      ensures ok ==> status == COMPLETE && PausedAt(base, scratch[..rawLen], where)
      ensures !ok ==> status == FAILED
    {
      if status != BODY {
        status := FAILED;
        return false;
      }
      ok := PauseParsing(where);
      lastAt, lastLen, status := 0, 0, if ok then COMPLETE else FAILED;
    }

    /** cb_no_body() */
    method CbNoBody() returns (ok: bool)
      requires InBlock() && (status == URL ==> lastAt + lastLen <= rawLen)
      modifies this`uri, this`status, this`lastAt, this`lastLen, this`preParsed, this`paused, conn, conn.pendingData
      ensures ok ==> status == COMPLETE && PausedAt(base, scratch[..rawLen], old(lastAt))
      ensures old(status) == BODY ==> uri == old(uri)
      ensures !ok ==> status == FAILED
      ensures ok ==> old(status) == BODY || old(status) == URL
      ensures ok ==> old(lastAt) <= rawLen <= old(lastAt) + PARSER_BLOCK_SIZE
      ensures (old(status) == BODY || (old(status) == URL && parser.kind))
        && old(lastAt) <= rawLen <= old(lastAt) + PARSER_BLOCK_SIZE
        ==> ok
    {
      if status == URL {
        ok := VerifyUrl();
      } else {
        ok := status == BODY;
      }
      if ok {
        ok := PauseParsing(lastAt);
      }
      if !ok {
        status := FAILED;
        return;
      }
      lastAt, lastLen, status := 0, 0, COMPLETE;
    }

    /** From the first header field on the limit on the buffer is that for headers. */
    predicate LimitFor(c: Cursor)
      reads this`scratchLimit
    {
      scratchLimit == if c.InUrl? || parser.q.headers == [] then maxUri else maxHdr
    }

    ghost predicate Tracking(n: nat)
      requires n <= scratch.Length
      reads this, scratch, parser
    {
      && Tracks(parser.q, parser.stream, parser.cursor, Fields(n))
      && LimitFor(parser.cursor) && n <= scratchLimit && status != COMPLETE && status != FAILED
    }

    /** Parsing is over: the socket is at the next request, and the headers can be searched. */
    ghost predicate Finished()
      reads this, scratch, conn, conn.pendingData, parser
    {
      var q, resume := parser.q, Resume(parser.q);
      && status == COMPLETE && Sound()
      && resume <= |parser.stream| && conn.Stream() == parser.stream[resume..]
      && uri == q.url && contentLen == remaining == q.bodyLen && hdrsCount == |q.headers|
      && StoredAll(q.headers) <= scratch[..]
    }

    /** Parsing has stopped inside a block that ended at stream position end; scratch[0] will be
        the byte at the pause, and the parser has already eaten some from there on. */
    ghost predicate Stopped(end: nat)
      reads this, scratch, conn, conn.pendingData, parser
    {
      && paused && Holds(0) && Tracking(0) && parser.cursor.InField?
      && base <= parser.pos <= end && preParsed == conn.pendingLen == end - base
    }

    /** What a callback leaves behind when it has not failed. */
    ghost predicate AfterEvent(end: nat)
      reads this, scratch, conn, conn.pendingData, parser
    {
      if !paused then InBlock() && Tracking(rawLen)
      else if status == COMPLETE then Finished()
      else Stopped(end)
    }

    /** One callback of the parser is delivered. */
    method Dispatch(e: Event, ghost c: Cursor) returns (ok: bool)
      requires Delivering(e, c)
      modifies this, scratch, conn, conn.pendingData
      ensures scratch == old(scratch) && rawLen == old(rawLen)
      ensures if ok then AfterEvent(parser.limit) && status != FAILED else status == FAILED
      ensures ok && !paused ==> base == old(base)
      ensures ok && paused && status != COMPLETE ==> c.InUrl? && !parser.cursor.InUrl?
      ensures ok && (e.OnBody? || e.OnMessageComplete?) ==> paused
      ensures Favoured() && old(Near(e)) ==> ok
    {
      hide Tracks, Legal, Finished, Stopped, Favoured;
      EventInBuffer(parser.q, parser.stream, c, Fields(rawLen), e, parser.pos);
      var start := parser.limit - rawLen;
      match e
      case OnUrl(at, len) => ok := DispatchUrl(at - start, len, c);
      case OnHeaderField(at, len) => ok := DispatchField(at - start, len, c);
      case OnHeaderValue(at, len) => ok := DispatchValue(at - start, len, c);
      case OnHeadersComplete => ok := DispatchHead(c);
      case OnBody(at) => ok := DispatchBody(at - start, c);
      case OnMessageComplete => ok := DispatchNoBody(c);
    }

    /** The parser has moved on to e; the fields have not yet. */
    ghost predicate Delivering(e: Event, c: Cursor)
      reads this, scratch, conn, parser
    {
      && InBlock() && Tracks(parser.q, parser.stream, c, Fields(rawLen))
      && LimitFor(c) && rawLen <= scratchLimit && Legal(parser.q, c, e, parser.pos) && parser.cursor == Advance(c, e)
    }

    /** What that means, without going into the state of the connection. */
    lemma WhatIsDelivered(e: Event, c: Cursor)
      requires Delivering(e, c)
      ensures GoodRequest(parser.q) && Head(parser.q) <= parser.stream && InBlock() && !paused && Placed()
      ensures rawLen <= scratch.Length && parser.pos <= base + rawLen == parser.limit <= |parser.stream|
      ensures Tracks(parser.q, parser.stream, c, Fields(rawLen)) && LimitFor(c) && rawLen <= scratchLimit
      ensures Legal(parser.q, c, e, parser.pos) && parser.cursor == Advance(c, e)
    {
      hide Tracks, Legal, Advance, LimitFor;
    }

    /** What the callback reports begins no more than a block before the end of this one. */
    predicate Near(e: Event)
      reads parser
    {
      match e
      case OnHeaderField(at, _) => parser.limit <= at + PARSER_BLOCK_SIZE
      case OnBody(at) => parser.limit <= at + PARSER_BLOCK_SIZE
      case OnMessageComplete => parser.limit <= |Head(parser.q)| + PARSER_BLOCK_SIZE
      case _ => true
    }

    method DispatchUrl(where: nat, len: nat, ghost c: Cursor) returns (ok: bool)
      requires Delivering(OnUrl(base + where, len), c)
      modifies this`status, this`lastAt, this`lastLen
      ensures if ok then InBlock() && Tracking(rawLen) else status == FAILED
      ensures Favoured() ==> ok
    {
      hide RawAll, TracksHeader, TracksBody;
      ghost var v := Fields(rawLen);
      UrlTracks(parser.q, parser.stream, c, v, where, len, parser.pos);
      ok := CbUrl(where, len);
    }

    method DispatchField(where: nat, len: nat, ghost c: Cursor) returns (ok: bool)
      requires Delivering(OnHeaderField(base + where, len), c)
      modifies this, scratch, conn, conn.pendingData
      ensures scratch == old(scratch) && rawLen == old(rawLen)
      ensures if ok then AfterEvent(parser.limit) && status != FAILED else status == FAILED
      ensures ok && !paused ==> base == old(base)
      ensures ok && paused ==> c.InUrl? && parser.cursor.InField?
      ensures Favoured() && old(Near(OnHeaderField(base + where, len))) ==> ok
    {
      hide Tracks, Legal, Delivering, InBlock, Placed, LimitFor, FieldAhead, FirstFieldDone, Stopped;
      hide Head, Start, Favoured;
      FieldDelivered(where, len, c);
      AtBest();
      PlacedMeans();
      ghost var v := Fields(rawLen);
      FieldMeans(c, v, where, len);
      ok := CbHeaderField(where, len);
      if ok {
        if v.status == URL {
          FirstFieldStops(v, where, len);
        } else {
          FieldGoesOn(c, v, where, len);
        }
      }
    }

    lemma PlacedMeans()
      requires Placed()
      ensures parser.Valid() && PARSER_BLOCK_SIZE <= maxUri && PARSER_BLOCK_SIZE <= maxHdr
    {
    }

    /** A header field has been reported; the fields are still before it. */
    lemma FieldDelivered(where: nat, len: nat, c: Cursor)
      requires Delivering(OnHeaderField(base + where, len), c)
      ensures InBlock() && !paused && Placed() && scratch != conn.pendingData && LimitFor(c) && rawLen <= scratchLimit
      ensures where + len <= rawLen <= scratch.Length && parser.pos <= base + rawLen == parser.limit <= |parser.stream|
      ensures FieldAhead(parser.q, parser.stream, c, Fields(rawLen), where, len) && base + where + len <= parser.pos
      ensures parser.cursor == Advance(c, OnHeaderField(base + where, len))
    {
      hide Tracks, Delivering, InBlock, FieldAhead, LimitFor, Head, Start;
      var e := OnHeaderField(base + where, len);
      WhatIsDelivered(e, c);
      assert base + where + len <= parser.pos;
      hide Legal;
      FieldPlace(parser.q, parser.stream, c, Fields(rawLen), where, len, parser.pos);
    }

    lemma FieldMeans(c: Cursor, v: View, where: nat, len: nat)
      requires FieldAhead(parser.q, parser.stream, c, v, where, len)
      ensures FieldSafe(v, where) && (c.InUrl? || v.status == HDR_FIELD || v.status == HDR_VALUE)
      ensures c.InUrl? ==> v.status == URL || (v.status == IDLE && parser.q.url == [])
      ensures v.status == URL ==> v.lastAt + v.lastLen <= |v.held| && c == InUrl(|parser.q.url|)
      ensures LimitFor(c) && v.status == HDR_VALUE ==> scratchLimit == maxHdr
    {
      hide Tracks, Head, Start, FieldStep;
    }

    /** After the first header field parsing stands still there. */
    lemma FirstFieldStops(v: View, where: nat, len: nat)
      requires FieldAhead(parser.q, parser.stream, InUrl(|parser.q.url|), v, where, len) && v.status == URL
      requires FirstFieldDone(v, where, len) && parser.Valid()
      requires PARSER_BLOCK_SIZE <= maxUri && PARSER_BLOCK_SIZE <= maxHdr
      requires parser.cursor == InField(0, len) && v.base + |v.held| == parser.limit <= |parser.stream|
      requires v.base + where + len <= parser.pos <= parser.limit
      ensures Stopped(parser.limit) && paused && status == HDR_FIELD
    {
      hide Tracks, Head, Start;
      FirstFieldTracks(parser.q, parser.stream, Fields(0), len);
    }

    /** After any other one the fields are in step again. */
    lemma FieldGoesOn(c: Cursor, v: View, where: nat, len: nat)
      requires FieldAhead(parser.q, parser.stream, c, v, where, len) && v.status != URL && !c.InUrl?
      requires LimitFor(c) && rawLen <= scratchLimit && rawLen <= scratch.Length && status != FAILED
      requires Fields(rawLen) == FieldStep(v, where, len)
      requires parser.cursor == Advance(c, OnHeaderField(v.base + where, len))
      ensures Tracking(rawLen) && base == v.base
    {
      hide Tracks, Head, Start;
    }

    method DispatchValue(where: nat, len: nat, ghost c: Cursor) returns (ok: bool)
      requires Delivering(OnHeaderValue(base + where, len), c)
      modifies this`status, this`lastAt, this`lastLen
      ensures if ok then InBlock() && Tracking(rawLen) else status == FAILED
      ensures ok
    {
      hide Tracks, Legal, RawAll, ColonBefore, PastSpaces;
      ghost var v := Fields(rawLen);
      ValueTracks(parser.q, parser.stream, c, v, where, len, parser.pos);
      ok := CbHeaderValue(where, len);
    }

    method DispatchHead(ghost c: Cursor) returns (ok: bool)
      requires Delivering(OnHeadersComplete, c)
      modifies this`uri, this`status, this`lastAt, this`hdrsCount, this`contentLen, this`remaining, scratch
      ensures if ok then InBlock() && Tracking(rawLen) else status == FAILED
      ensures Favoured() ==> ok
    {
      hide Tracks, Legal, Head, AfterLineFeeds, HeadStep, Sound, InBlock, Favoured;
      HeadDelivered(c);
      AtBest();
      ghost var v := Fields(rawLen);
      ok := CbHeadersComplete(parser.q.bodyLen);
      if ok {
        HeadFollows(c, v);
      }
    }

    /** The head has been reported; the fields are still before it. */
    lemma HeadDelivered(c: Cursor)
      requires Delivering(OnHeadersComplete, c)
      ensures InBlock() && rawLen <= scratch.Length && parser.cursor == HeadDone
      ensures HeadAhead(parser.q, parser.stream, c, Fields(rawLen)) && LimitFor(c) && rawLen <= scratchLimit
    {
      hide Tracks, Legal, Delivering, InBlock, HeadAhead, LimitFor, Head, GoodRequest;
      WhatIsDelivered(OnHeadersComplete, c);
      HeadPlace(parser.q, parser.stream, c, Fields(rawLen), parser.pos);
    }

    lemma HeadFollows(c: Cursor, v: View)
      requires HeadAhead(parser.q, parser.stream, c, v) && LimitFor(c) && rawLen <= scratchLimit
      requires parser.cursor == HeadDone && status == BODY && rawLen <= scratch.Length
      requires (v.status == URL || v.status == HDR_VALUE) && v.lastAt + v.lastLen <= |v.held|
      requires v.status == URL ==>
        Fields(rawLen) == v.(uri := v.held[v.lastAt..v.lastAt + v.lastLen], contentLen := parser.q.bodyLen,
                             remaining := parser.q.bodyLen, status := BODY)
      requires v.status == HDR_VALUE ==> Fields(rawLen) == HeadStep(v, parser.q.bodyLen)
      ensures Tracking(rawLen)
    {
      hide Tracks, Head;
      if v.status == URL {
        BareHeadTracks(parser.q, parser.stream, v, Fields(rawLen));
      }
    }

    method DispatchBody(where: nat, ghost c: Cursor) returns (ok: bool)
      requires Delivering(OnBody(base + where), c)
      modifies this`status, this`lastAt, this`lastLen, this`preParsed, this`paused, conn, conn.pendingData
      ensures if ok then paused && status == COMPLETE && Finished() else status == FAILED
      ensures Near(OnBody(base + where)) ==> ok
    {
      hide Tracks, Legal, Delivering, InBlock, Placed, PausedAt, BodyAhead, Finished, Head, StoredAll;
      BodyDelivered(OnBody(base + where), c);
      ghost var v := Fields(rawLen);
      BodyMeans(v);
      ok := CbOnBody(where);
      if ok {
        NowFinished(v);
      }
    }

    method DispatchNoBody(ghost c: Cursor) returns (ok: bool)
      requires Delivering(OnMessageComplete, c)
      modifies this`uri, this`status, this`lastAt, this`lastLen, this`preParsed, this`paused, conn, conn.pendingData
      ensures if ok then paused && status == COMPLETE && Finished() else status == FAILED
      ensures Favoured() && Near(OnMessageComplete) ==> ok
    {
      hide Tracks, Legal, Delivering, InBlock, Placed, PausedAt, BodyAhead, Finished, StoredAll;
      BodyDelivered(OnMessageComplete, c);
      ghost var v := Fields(rawLen);
      BodyMeans(v);
      ok := CbNoBody();
      if ok {
        NowFinished(v);
      }
    }

    /** What follows the head has been reported; the fields point at the next request. */
    lemma BodyDelivered(e: Event, c: Cursor)
      requires Delivering(e, c) && (e.OnBody? || e.OnMessageComplete?)
      ensures InBlock() && Placed() && rawLen <= scratch.Length && base + rawLen == parser.limit <= |parser.stream|
      ensures BodyAhead(parser.q, parser.stream, Fields(rawLen)) && scratch != conn.pendingData
      ensures e.OnBody? ==> e.at == base + lastAt
    {
      hide Tracks, Delivering, InBlock, BodyAhead, Head, HttpParser.Valid;
      WhatIsDelivered(e, c);
      BodyPlace(parser.q, parser.stream, Fields(rawLen));
      if e.OnBody? {
        BodyMeans(Fields(rawLen));
      }
    }

    lemma BodyMeans(v: View)
      requires BodyAhead(parser.q, parser.stream, v)
      ensures v.status == BODY && v.lastAt <= |v.held| && v.base + v.lastAt == Resume(parser.q)
    {
      hide StoredAll, Head;
    }

    /** Parsing has paused where the fields pointed. */
    lemma NowFinished(v: View)
      requires BodyAhead(parser.q, parser.stream, v) && Placed() && status == COMPLETE
      requires v.lastAt <= |v.held| && PausedAt(v.base, v.held, v.lastAt)
      requires uri == v.uri && contentLen == v.contentLen && remaining == v.remaining && hdrsCount == v.hdrsCount
      requires v.held <= scratch[..]
      ensures Finished()
    {
      hide StoredAll, Head, Conn.Stream, Conn.Valid, HttpParser.Valid;
    }

    /** The top of the loop in httpd_parse_req(), with `offset` bytes of the buffer used. */
    ghost predicate AtTop(offset: nat)
      reads this, scratch, conn, conn.pendingData, parser
    {
      && Holds(offset) && Tracking(offset) && offset <= scratchLimit
      && (conn.pendingLen > 0 ==> offset == 0) && parser.Waiting(parser.pos)
      && if paused then offset == 0 && 0 <= preParsed <= conn.pendingLen && base + preParsed == parser.pos
         else base + offset == parser.pos
    }

    /** A block of n bytes has been read behind the first `offset` ones. */
    ghost predicate Filled(offset: nat, n: nat)
      reads this, scratch, conn, parser
    {
      && Sound() && n > 0 && offset + n <= scratch.Length && offset + n <= scratchLimit
      && base + offset + n <= |parser.stream| && conn.pendingLen == 0
      && conn.unread == parser.stream[base + offset + n..] && Tracking(offset + n) && parser.Waiting(parser.pos)
      && scratch[offset..offset + n] == parser.stream[base + offset..base + offset + n]
      && if paused then offset == 0 && 0 <= preParsed <= n && base + preParsed == parser.pos
         else base + offset == parser.pos
    }

    /** read_block(); running out of memory is left out. */
    method ReadBlock(offset: nat, length: nat) returns (n: int)
      requires AtTop(offset) && length == PARSER_BLOCK_SIZE
      modifies this`scratch, conn
      ensures fresh(scratch) || scratch == old(scratch)
      ensures n > 0 ==> Filled(offset, n)
      ensures n == 0 || n == SOCK_ERR_TIMEOUT ==> AtTop(offset)
      ensures n <= length
      ensures Favoured() ==> n > 0
    {
      hide Tracks, Favoured, HttpParser.Waiting;
      AtBest();
      if Favoured() {
        RoomLeft(offset);
      }
      var room := Min(length, scratchLimit - offset);
      if room == 0 {
        return 0;
      }
      Grow(offset, room);
      n := Receive(offset, room);
      var retry: bool := *;
      if n <= 0 && !(n == SOCK_ERR_TIMEOUT && retry) {
        n := SOCK_ERR_FAIL;
      }
    }

    /** As long as a favoured request has not been read, there is room for more of it, and there is more. */
    lemma RoomLeft(offset: nat)
      requires AtTop(offset) && Favoured()
      ensures offset < scratchLimit && conn.Stream() != []
    {
      var q, c := parser.q, parser.cursor;
      FirstLine(q);
      match c
      case InField(k, _) => LineGrows(q, k);
      case InValue(k, _) =>
        LineGrows(q, k);
        if k + 1 < |q.headers| {
          LineGrows(q, k + 1);
        }
      case _ =>
    }

    method Receive(offset: nat, room: nat) returns (n: int)
      requires AtTop(offset) && scratch.Length == offset + room && 0 < room <= scratchLimit - offset
      requires offset == 0 ==> room == PARSER_BLOCK_SIZE
      modifies scratch, conn
      ensures n > 0 ==> Filled(offset, n)
      ensures n == SOCK_ERR_TIMEOUT ==> AtTop(offset)
      ensures n <= 0 ==> n != 0 || conn.dead
      ensures n <= room && (conn.prompt && old(conn.Stream()) != [] ==> n > 0)
    {
      hide Tracks, AtTop, Filled, TopApart, Conn.Stream, Conn.Pending, Conn.Valid, HttpParser.Valid;
      TopMeans(offset);
      ghost var v, pend := Fields(offset), conn.pendingLen;
      n := conn.RecvWithOpt(scratch, offset, room, HaltAfterPending);
      if n > 0 {
        SliceTwice(parser.stream, base + offset, n);
        BlockReceived(offset, room, n, v, pend);
      } else if n == SOCK_ERR_TIMEOUT {
        NothingReceived(offset, v);
      }
    }

    /** What is said at the top of the loop without looking at the connection or into the buffer. */
    ghost predicate TopApart(offset: nat, pend: nat)
      reads this, parser
    {
      && Placed() && LimitFor(parser.cursor) && offset <= scratchLimit && status != COMPLETE && status != FAILED
      && (pend > 0 ==> offset == 0) && parser.Waiting(parser.pos)
      && if paused then offset == 0 && 0 <= preParsed <= pend && base + preParsed == parser.pos
         else base + offset == parser.pos
    }

    lemma TopMeans(offset: nat)
      requires AtTop(offset)
      ensures TopApart(offset, conn.pendingLen) && offset <= scratch.Length && base + offset <= |parser.stream|
      ensures conn.Valid() && !conn.dead && conn.Stream() == parser.stream[base + offset..]
      ensures conn.pendingLen <= PARSER_BLOCK_SIZE
      ensures Tracks(parser.q, parser.stream, parser.cursor, Fields(offset)) && scratch != conn.pendingData
    {
      hide Tracks, LimitFor, Conn.Stream, HttpParser.Valid, HttpParser.Waiting;
    }

    lemma BlockReceived(offset: nat, room: nat, n: nat, v: View, pend: nat)
      requires 0 < n <= room && scratch.Length == offset + room <= scratchLimit
      requires TopApart(offset, pend) && v == Fields(offset) && Tracks(parser.q, parser.stream, parser.cursor, v)
      requires base + offset + n <= |parser.stream|
      requires offset == 0 ==> room == PARSER_BLOCK_SIZE
      requires scratch[offset..offset + n] == parser.stream[base + offset..base + offset + n]
      requires conn.Valid() && !conn.dead && conn.Stream() == parser.stream[base + offset + n..]
      requires pend <= PARSER_BLOCK_SIZE && conn.pendingLen == pend - Min(pend, room)
      requires pend > 0 ==> n == Min(pend, room)
      ensures Filled(offset, n)
    {
      hide Tracks, LimitFor, HttpParser.Valid, HttpParser.Waiting, Conn.Stream;
      conn.NothingPending();
      FilledTracks(offset, n, v);
    }

    lemma NothingReceived(offset: nat, v: View)
      requires offset <= scratch.Length
      requires TopApart(offset, 0) && v == Fields(offset) && Tracks(parser.q, parser.stream, parser.cursor, v)
      requires base + offset <= |parser.stream|
      requires conn.Valid() && !conn.dead && conn.Stream() == parser.stream[base + offset..] && conn.pendingLen == 0
      ensures AtTop(offset)
    {
      hide Tracks, LimitFor, HttpParser.Valid, HttpParser.Waiting, Conn.Stream;
    }

    /** realloc() */
    method Grow(offset: nat, room: nat)
      requires offset <= scratch.Length
      modifies this`scratch
      ensures fresh(scratch) && scratch.Length == offset + room && scratch[..offset] == old(scratch[..offset])
    {
      var bigger := new byte[offset + room];
      forall i | 0 <= i < offset {
        bigger[i] := scratch[i];
      }
      scratch := bigger;
    }

    lemma FilledTracks(offset: nat, n: nat, v: View)
      requires offset + n <= scratch.Length && base + offset + n <= |parser.stream|
      requires v == Fields(offset) && Tracks(parser.q, parser.stream, parser.cursor, v)
      requires scratch[offset..offset + n] == parser.stream[base + offset..base + offset + n]
      ensures Tracks(parser.q, parser.stream, parser.cursor, Fields(offset + n))
    {
      assert scratch[..offset + n] == scratch[..offset] + scratch[offset..offset + n];
      hide Tracks;
      MoreTracks(parser.q, parser.stream, parser.cursor, v, Fields(offset + n));
    }

    /** continue_parsing() */
    method ContinueParsing(length: nat) returns (skip: nat)
      requires preParsed >= 0
      modifies this`preParsed, this`paused
      ensures skip == Min(length, old(preParsed)) && preParsed == old(preParsed) - skip && !paused
    {
      skip := Min(length, preParsed);
      preParsed, paused := preParsed - skip, false;
    }

    /** In the block between two callbacks. */
    ghost predicate Between()
      reads this, scratch, conn, parser
    {
      InBlock() && Tracking(rawLen)
    }

    /** The block is handed over. */
    method StartBlock(offset: nat, length: nat)
      requires rawLen == offset + length && Filled(offset, length) && !paused
      modifies parser`limit
      ensures Between() && parser.limit == parser.pos + length
    {
      hide Tracks;
      parser.Feed(scratch[offset..offset + length]);
    }

    /** The block is done with. */
    method FinishBlock()
      requires Between() && parser.Waiting(parser.limit)
      modifies parser`pos
      ensures Between() && parser.pos >= old(parser.pos) && parser.Waiting(parser.limit)
      ensures parser.kind ==> parser.pos == parser.limit
    {
      hide Tracks, HttpParser.Waiting;
      var _ := parser.Finish();
    }

    /** The next callback in the block, if there is one; going says whether the parser goes on after it. */
    method NextCallback() returns (going: bool, over: bool)
      requires Between() && parser.limit <= parser.pos + PARSER_BLOCK_SIZE
      modifies this, scratch, conn, conn.pendingData, parser`pos, parser`cursor
      ensures scratch == old(scratch) && rawLen == old(rawLen)
      ensures parser.Valid() && parser.pos >= old(parser.pos)
      ensures going <==> status != FAILED && !paused
      ensures if going then Between() && base == old(base) else status == FAILED || AfterEvent(parser.limit)
      ensures if over then going && parser.Waiting(parser.limit)
              else parser.kind && going ==> parser.WorkLeft() < old(parser.WorkLeft())
      ensures parser.cursor.InUrl? ==> old(parser.cursor).InUrl?
      ensures status != FAILED && paused && status != COMPLETE ==> old(parser.cursor).InUrl? && !parser.cursor.InUrl?
      ensures Favoured() ==> status != FAILED
    {
      hide Tracks, Finished, Stopped, Favoured, HttpParser.Waiting, HttpParser.WorkLeft, InTurn, Legal;
      ghost var c, pos := parser.cursor, parser.pos;
      var some, e := parser.NextEvent();
      over := !some;
      if over {
        going := true;
      } else {
        NearBy(e, c, pos);
        var ok := Dispatch(e, c);
        going := ok && !paused;
      }
    }

    /** http_parser_execute() on the block at `offset`: the callbacks run until one pauses or fails
        or there are no more in this block.  Gives the number of bytes counted as parsed. */
    method Execute(offset: nat, length: nat) returns (nparsed: nat)
      requires rawLen == offset + length && Filled(offset, length) && !paused && length <= PARSER_BLOCK_SIZE
      modifies this, scratch, conn, conn.pendingData, parser
      ensures scratch == old(scratch) && rawLen == old(rawLen)
      ensures parser.limit == old(parser.pos) + length && parser.pos == old(parser.pos) + nparsed <= parser.limit
      ensures status == FAILED || AfterEvent(parser.limit)
      ensures status != FAILED && !paused ==> base == old(base) && (nparsed == length ==> parser.Waiting(parser.pos))
      ensures parser.cursor.InUrl? ==> old(parser.cursor).InUrl?
      ensures status != FAILED && paused && status != COMPLETE ==> old(parser.cursor).InUrl? && !parser.cursor.InUrl?
      ensures Favoured() ==> status != FAILED && (paused || nparsed == length)
    {
      hide Between, Tracking, InBlock, Finished, Stopped, Favoured, HttpParser.Waiting, HttpParser.WorkLeft;
      AtBest();
      var from := parser.pos;
      StartBlock(offset, length);
      InTheBlock();
      var budget: int := *;
      if parser.kind {
        budget := parser.WorkLeft();
      }
      var going, over := true, false;
      while going && !over && budget > 0
        invariant scratch == old(scratch) && rawLen == old(rawLen)
        invariant parser.Valid() && parser.pos >= from && parser.limit == from + length
        invariant going <==> status != FAILED && !paused
        invariant if going then Between() && base == old(base) else status == FAILED || AfterEvent(parser.limit)
        invariant parser.cursor.InUrl? ==> old(parser.cursor).InUrl?
        invariant status != FAILED && paused && status != COMPLETE
          ==> old(parser.cursor).InUrl? && !parser.cursor.InUrl?
        invariant Favoured() ==> status != FAILED
        invariant parser.kind && going && !over ==> budget >= parser.WorkLeft()
        invariant over ==> parser.Waiting(parser.limit)
        decreases !over, budget
      {
        going, over := NextCallback();
        budget := budget - 1;
      }
      if going {
        if !over {
          parser.Unkind();
        }
        FinishBlock();
        InTheBlock();
      }
      nparsed := parser.pos - from;
    }

    lemma InTheBlock()
      requires Between()
      ensures InBlock() && parser.Valid() && Tracking(rawLen) && !paused && status != FAILED && AfterEvent(parser.limit)
    {
      hide Tracks;
    }

    lemma AtBest()
      ensures Favoured() ==> parser.kind && conn.prompt && parser.q.url != []
    {
    }

    /** What a kind parser reports begins in the block, so it is near. */
    lemma NearBy(e: Event, c: Cursor, pos: nat)
      requires Legal(parser.q, c, e, parser.pos) && parser.limit <= pos + PARSER_BLOCK_SIZE
      requires parser.kind ==> InTurn(parser.q, c, pos, parser.limit, e, parser.pos) && pos <= parser.pos - Length(e)
      ensures Favoured() ==> Near(e)
    {
    }

    /** parse_block() */
    method ParseBlock(offset: nat, length: nat) returns (r: int)
      requires status != COMPLETE && status != FAILED
      requires length > 0 ==> rawLen == offset + length && Filled(offset, length)
      requires length <= PARSER_BLOCK_SIZE
      modifies this, scratch, conn, conn.pendingData, parser
      ensures scratch == old(scratch)
      ensures r >= 0 ==> Onward(r)
      ensures r >= 0 && status != COMPLETE ==> Progress(old(parser.cursor), old(paused), old(parser.pos))
      ensures Favoured() && length > 0 ==> r >= 0
    {
      hide Tracks, Finished, Stopped, Favoured;
      if length == 0 {
        // 414 or 431: the URI or a header has outgrown the buffer
        status := FAILED;
        return -1;
      }
      var skip := 0;
      if paused {
        skip := SkipPreParsed(offset, length);
        if skip == length {
          return skip;
        }
      }
      r := ParseRest(offset + skip, length - skip);
    }

    /** The bytes the parser had eaten before the pause are not fed to it again. */
    method SkipPreParsed(offset: nat, length: nat) returns (skip: nat)
      requires paused && rawLen == offset + length && Filled(offset, length)
      modifies this`preParsed, this`paused
      ensures skip <= length && !paused
      ensures if skip == length then AtTop(skip) else Filled(offset + skip, length - skip)
    {
      hide Tracks, AtTop, Holds;
      ghost var v := Fields(offset + length);
      skip := ContinueParsing(length);
      assert Fields(offset + length) == v;
      Skipped(offset, length, skip);
    }

    lemma Skipped(offset: nat, n: nat, skip: nat)
      requires Sound() && n > 0 && skip <= n && offset + n <= scratch.Length && offset + n <= scratchLimit
      requires base + offset + n <= |parser.stream| && conn.pendingLen == 0
      requires conn.unread == parser.stream[base + offset + n..] && Tracking(offset + n)
      requires scratch[offset..offset + n] == parser.stream[base + offset..base + offset + n]
      requires !paused && base + offset + skip == parser.pos && parser.Waiting(parser.pos)
      ensures if skip == n then AtTop(offset + n) else Filled(offset + skip, n - skip)
    {
      hide Tracks;
      if skip == n {
        assert conn.Stream() == conn.unread;
      } else {
        SliceSuffix(scratch[..], offset, offset + skip, offset + n);
        SliceSuffix(parser.stream, base + offset, base + offset + skip, base + offset + n);
      }
    }

    /** parse_block() once what had been parsed already is skipped. */
    method ParseRest(at: nat, len: nat) returns (r: int)
      requires rawLen == at + len && Filled(at, len) && !paused && len <= PARSER_BLOCK_SIZE
      modifies this, scratch, conn, conn.pendingData, parser
      ensures scratch == old(scratch)
      ensures r >= 0 ==> Onward(r)
      ensures r >= 0 && status != COMPLETE ==> Progress(old(parser.cursor), false, old(parser.pos))
      ensures Favoured() ==> r >= 0
    {
      hide Tracks, StoredAll, Head, Favoured;
      var nparsed := Execute(at, len);
      if status == FAILED {
        return -1;
      }
      if paused {
        preParsed := preParsed - (len - nparsed);
        if status != COMPLETE {
          parser.StepIsWaiting();
        }
        return 0;
      }
      if nparsed != len {
        status := FAILED;
        return -1;
      }
      BlockDone();
      r := at + nparsed;
    }

    /** The loop goes on with r bytes of the buffer used, or is over. */
    ghost predicate Onward(r: int)
      reads this, scratch, conn, conn.pendingData, parser
    {
      r >= 0 && if status == COMPLETE then Finished() else AtTop(r)
    }

    /** A pause has been passed, or bytes have been eaten: the loop comes to an end. */
    ghost predicate Progress(c: Cursor, wasPaused: bool, pos: nat)
      reads this, parser
    {
      && (parser.cursor.InUrl? ==> c.InUrl?)
      && ((c.InUrl? && !parser.cursor.InUrl?)
          || (!paused && if wasPaused then parser.pos >= pos else parser.pos > pos))
    }

    lemma BlockDone()
      requires InBlock() && Tracking(rawLen) && parser.pos == parser.limit && parser.Waiting(parser.pos)
      ensures AtTop(rawLen)
    {
      hide Tracks;
      assert conn.Stream() == conn.unread;
    }

    /** The bytes read are added to those there. */
    method CountIn(offset: nat, n: nat)
      requires n > 0 ==> Filled(offset, n)
      modifies this`rawLen
      ensures rawLen == n + offset && (n > 0 ==> Filled(offset, n))
    {
      hide Tracks, Conn.Valid, HttpParser.Valid, HttpParser.Waiting, LimitFor;
      rawLen := n + offset;
    }

    /** One turn of the loop in httpd_parse_req(); the timeout code asks for another try. */
    method ReadAndParse(offset: nat) returns (r: int)
      requires AtTop(offset)
      modifies this, scratch, conn, conn.pendingData, parser
      ensures fresh(scratch) || scratch == old(scratch)
      ensures r >= 0 ==> Onward(r)
      ensures r >= 0 && status != COMPLETE ==> Progress(old(parser.cursor), old(paused), old(parser.pos))
      ensures r == SOCK_ERR_TIMEOUT ==> AtTop(offset)
      ensures Favoured() ==> r >= 0
    {
      hide AtTop, Filled, Finished, Onward, Progress, Favoured;
      TopMeans(offset);
      r := ReadBlock(offset, PARSER_BLOCK_SIZE);
      if r >= 0 {
        var n := r;
        CountIn(offset, n);
        r := ParseBlock(offset, n);
        if r < 0 {
          r := SOCK_ERR_FAIL;
        }
      }
    }

    /** httpd_parse_req(); patience bounds how often the error handler asks for another try after
        a timeout. */
    method ParseReq(patience: nat) returns (ok: bool)
      requires AtTop(0)
      modifies this, scratch, conn, conn.pendingData, parser
      ensures fresh(scratch) || scratch == old(scratch)
      ensures ok ==> Finished()
      ensures Favoured() ==> ok
    {
      var offset, left := 0, patience;
      while true
        invariant AtTop(offset) && (fresh(scratch) || scratch == old(scratch))
        decreases left, parser.cursor.InUrl?, paused, |parser.stream| - parser.pos
      {
        hide Tracks, Finished, Holds, Tracking, Favoured;
        var r := ReadAndParse(offset);
        if r == SOCK_ERR_TIMEOUT && left > 0 {
          left := left - 1;
          continue;
        }
        if r < 0 {
          return false;
        }
        if status == COMPLETE {
          return true;
        }
        offset := r;
      }
    }

    /** A handler asks for a header of the request that was parsed, in the buffer it was parsed in. */
    method GetHdrValueStr(field: seq<byte>, val: array<byte>) returns (len: nat, r: Err)
      requires Finished() && val != scratch
      modifies val
      ensures var hs := parser.q.headers;
              var k := FirstMatch(hs, field);
              && len == (if k < |hs| then |hs[k].value| else 0)
              && (r == NOT_FOUND <==> k == |hs|)
              && (k < |hs| && val.Length > len ==>
                  r == OK && val[..len] == hs[k].value && val[len] == NUL)
    {
      ghost var hs := parser.q.headers;
      len := HdrValueLen(scratch[..], hdrsCount, field, hs);
      r := HdrValueStr(scratch[..], hdrsCount, field, val, hs);
    }

    /** Between the head and the next request: some of the body has been read. */
    ghost predicate InBody()
      reads this, conn, conn.pendingData, parser
    {
      var q := parser.q;
      var at := Resume(q) + q.bodyLen - remaining;
      && conn.Valid() && remaining <= q.bodyLen && (conn.dead ==> remaining > 0)
      && (!conn.dead ==> at <= |parser.stream| && conn.Stream() == parser.stream[at..])
    }

    /** The connection is alive and the rest of the body is, or will be, there. */
    ghost predicate BodyThere()
      requires conn.Valid()
      reads this, conn, conn.pendingData
    {
      !conn.dead && remaining <= |conn.Stream()|
    }

    /** httpd_req_recv() */
    method ReqRecv(buf: array<byte>, len: nat) returns (n: int)
      requires InBody() && len <= buf.Length && buf != conn.pendingData
      modifies this`remaining, conn, buf
      ensures InBody()
      ensures n > 0 ==> n <= len && remaining == old(remaining) - n
      ensures n > 0 ==> var at := Resume(parser.q) + parser.q.bodyLen - old(remaining);
        at + n <= |parser.stream| && buf[..n] == parser.stream[at..at + n]
      ensures n <= 0 ==> remaining == old(remaining)
      ensures conn.prompt && old(BodyThere()) ==> BodyThere() && (len > 0 && old(remaining) > 0 ==> n > 0)
    {
      hide Resume, Head, Conn.Pending;
      var want := Min(len, remaining);
      if want == 0 {
        return 0;
      }
      ghost var at := Resume(parser.q) + parser.q.bodyLen - remaining;
      n := conn.RecvWithOpt(buf, 0, want, RecvOpt.None);
      if n < 0 {
        return;
      }
      assert buf[0..n] == buf[..n];
      if n > 0 {
        SliceTwice(parser.stream, at, n);
      }
      remaining := remaining - n;
    }

    /** httpd_req_delete(): what the handler has left of the body is read and dropped. */
    method ReqDelete() returns (ok: bool)
      requires InBody()
      modifies this`remaining, conn
      ensures InBody() && (ok ==> remaining == 0)
      ensures conn.prompt && old(BodyThere()) ==> ok
    {
      var dummy := new byte[PURGE_BUF_LEN];
      while remaining != 0
        invariant InBody() && fresh(dummy) && dummy.Length == PURGE_BUF_LEN
        invariant conn.prompt && old(BodyThere()) ==> BodyThere()
      {
        var n := ReqRecv(dummy, Min(PURGE_BUF_LEN, remaining));
        if n <= 0 {
          return false;
        }
      }
      ok := true;
    }

    /** One request of a keep-alive session: parse, let the handler read as it likes, clean up. */
    method Process(patience: nat, sizes: seq<nat>) returns (parsed: bool, ok: bool)
      requires AtTop(0)
      modifies this, scratch, conn, conn.pendingData, parser
      ensures ok ==> parsed
      ensures parsed && conn.prompt && NextRequest(parser.q) <= |parser.stream| ==> ok
      ensures Favoured() && NextRequest(parser.q) <= |parser.stream| ==> ok
      ensures ok ==> conn.Valid() && !conn.dead && NextRequest(parser.q) <= |parser.stream|
                     && conn.Stream() == parser.stream[NextRequest(parser.q)..]
    {
      hide Head, StoredAll, Tracks, Favoured;
      AtBest();
      parsed := ParseReq(patience);
      if !parsed {
        return false, false;
      }
      ghost var there := NextRequest(parser.q) <= |parser.stream|;
      for i := 0 to |sizes|
        invariant InBody() && (conn.prompt && there ==> BodyThere())
      {
        var buf := new byte[sizes[i]];
        var _ := ReqRecv(buf, sizes[i]);
      }
      ok := ReqDelete();
    }
  }

  /** A short request without headers, whatever follows it: it is parsed and cleaned up, and the session is left
      at its URL, which the next request will be read from. */
  method BareRequestRun(q: Request, rest: seq<byte>, maxUri: nat, maxHdr: nat, patience: nat, sizes: seq<nat>)
    returns (ok: bool, ghost left: seq<byte>)
    requires GoodRequest(q) && q.headers == [] && q.url != [] && |q.line| < maxUri && |Head(q)| <= maxUri
    requires PARSER_BLOCK_SIZE <= maxUri && PARSER_BLOCK_SIZE <= maxHdr
    requires |Head(q)| + |rest| <= q.urlAt + PARSER_BLOCK_SIZE
    ensures ok && left == (Head(q) + rest)[q.urlAt..] && |left| > |rest|
  {
    hide Head, Resume, GoodRequest, NextRequest, HttpParser.Valid, Conn.Stream, HttpdReq.AtTop, HttpdReq.Favoured;
    var conn := new Conn(Head(q) + rest, true);
    var parser := new HttpParser(q, rest, true);
    var req := new HttpdReq(conn, parser, maxUri, maxHdr);
    BareRequest(req, rest);
    var _, done := req.Process(patience, sizes);
    ok, left := done, conn.Stream();
  }

  lemma BareRequest(req: HttpdReq, rest: seq<byte>)
    requires var q, s := req.parser.q, req.parser.stream;
      && GoodRequest(q) && q.headers == [] && q.url != [] && |q.line| < req.maxUri && |Head(q)| <= req.maxUri
      && PARSER_BLOCK_SIZE <= req.maxUri && PARSER_BLOCK_SIZE <= req.maxHdr
      && s == Head(q) + rest && |s| <= q.urlAt + PARSER_BLOCK_SIZE && req.parser.kind && req.conn.prompt
    ensures var q, s := req.parser.q, req.parser.stream;
      req.Favoured() && NextRequest(q) == q.urlAt < |Head(q)| && |s[q.urlAt..]| > |rest|
  {
  }

  lemma SliceRest(s: seq<byte>, a: nat, b: nat)
    requires a <= b <= |s|
    ensures s[a..b] == s[..b][a..]
  {
  }

  lemma SliceSuffix(s: seq<byte>, a: nat, b: nat, c: nat)
    requires a <= b <= c <= |s|
    ensures s[b..c] == s[a..c][b - a..]
  {
  }

  lemma ZeroedNothing(s: seq<byte>, lo: nat)
    requires lo <= |s|
    ensures Zeroed(s, lo, lo) == s
  {
  }

  lemma NextLineFeed(s: seq<byte>, i: nat, t: nat)
    requires i <= |s|
    ensures AfterLineFeeds(s, i, t)
         == if i == |s| || t == 0 then (i, t) else AfterLineFeeds(s, i + 1, if s[i] == LF then t - 1 else t)
  {
  }

  lemma ZeroedOneMore(s: seq<byte>, lo: nat, at: nat)
    requires lo <= at < |s|
    ensures Zeroed(s, lo, at)[at] == s[at]
    ensures Zeroed(s, lo, at)[at := NUL] == Zeroed(s, lo, at + 1)
  {
  }

  lemma ZeroedPrefix(was: seq<byte>, now: seq<byte>, n: nat, lo: nat, hi: nat)
    requires lo <= hi <= n <= |was| && now == was[..lo] + Fill(NUL, hi - lo) + was[hi..]
    ensures |now| == |was| && now[..n] == Zeroed(was[..n], lo, hi)
  {
  }
}
