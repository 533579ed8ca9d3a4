/**
 Request headers as they stand in the scratch buffer of
 components/esp_http_server/src/httpd_parse.c once the parser callbacks have overwritten
 the line ends with NULs, and the lookups that search them in place.
 */
module HttpHeaders {
  import opened Bytes

  const NUL: byte := 0
  const SP: byte := 32
  const COLON: byte := 58

  datatype Header = Header(name: seq<byte>, spaces: nat, value: seq<byte>, eol: seq<byte>)

  predicate IsEol(e: seq<byte>) {
    e == [CR, LF] || e == [LF]
  }

  /** What this model takes a header line to be: no fold, and only spaces after the colon. */
  predicate GoodHeader(h: Header) {
    && h.name != [] && COLON !in h.name && NUL !in h.name
    && NUL !in h.value && (h.value != [] ==> h.value[0] != SP)
    && IsEol(h.eol)
  }

  predicate GoodHeaders(hs: seq<Header>) {
    forall h | h in hs :: GoodHeader(h)
  }

  function Fill(b: byte, n: nat): (s: seq<byte>)
    ensures |s| == n && forall i | 0 <= i < n :: s[i] == b
  {
    seq(n, _ => b)
  }

  /** The line up to its end: what both forms share. */
  function Line(h: Header): (s: seq<byte>)
    ensures |s| == |h.name| + 1 + h.spaces + |h.value|
  {
    h.name + [COLON] + Fill(SP, h.spaces) + h.value
  }

  function ValueAt(h: Header): nat {
    |h.name| + 1 + h.spaces
  }

  function Raw(h: Header): (s: seq<byte>)
    ensures |s| == |Line(h)| + |h.eol|
  {
    Line(h) + h.eol
  }

  function Stored(h: Header): (s: seq<byte>)
    ensures |s| == |Raw(h)|
  {
    Line(h) + Fill(NUL, |h.eol|)
  }

  function RawAll(hs: seq<Header>): seq<byte> {
    if hs == [] then [] else RawAll(hs[..|hs| - 1]) + Raw(hs[|hs| - 1])
  }

  function StoredAll(hs: seq<Header>): (s: seq<byte>)
    ensures |s| == |RawAll(hs)|
  {
    if hs == [] then [] else StoredAll(hs[..|hs| - 1]) + Stored(hs[|hs| - 1])
  }

  function Start(hs: seq<Header>, k: nat): nat
    requires k <= |hs|
  {
    |RawAll(hs[..k])|
  }

  lemma StartStep(hs: seq<Header>, k: nat)
    requires k < |hs|
    ensures Start(hs, k + 1) == Start(hs, k) + |Raw(hs[k])|
    ensures RawAll(hs[..k + 1]) == RawAll(hs[..k]) + Raw(hs[k])
    ensures StoredAll(hs[..k + 1]) == StoredAll(hs[..k]) + Stored(hs[k])
  {
    assert hs[..k + 1][..k] == hs[..k];
  }

  lemma {:induction false} StartMonotone(hs: seq<Header>, k: nat, n: nat)
    requires k <= n <= |hs|
    ensures Start(hs, k) <= Start(hs, n)
    ensures RawAll(hs[..k]) == RawAll(hs[..n])[..Start(hs, k)]
    ensures StoredAll(hs[..k]) == StoredAll(hs[..n])[..Start(hs, k)]
    decreases n - k
  {
    if k < n {
      StartMonotone(hs, k, n - 1);
      StartStep(hs, n - 1);
    }
  }

  /** The k-th header inside the whole store. */
  lemma StoredWithin(hs: seq<Header>, k: nat)
    requires k < |hs|
    ensures Start(hs, k) + |Raw(hs[k])| == Start(hs, k + 1) <= |StoredAll(hs)|
    ensures StoredAll(hs)[Start(hs, k)..Start(hs, k + 1)] == Stored(hs[k])
  {
    StartStep(hs, k);
    StartMonotone(hs, k + 1, |hs|);
    assert hs[..|hs|] == hs;
    var all, a, b := StoredAll(hs), Start(hs, k), Start(hs, k + 1);
    assert all[a..b] == all[..b][a..];
  }

  // ----- What a lookup is meant to find -----

  function Lower(b: byte): byte {
    if 65 <= b <= 90 then b + 32 else b
  }

  predicate SameName(a: seq<byte>, b: seq<byte>) {
    |a| == |b| && forall i | 0 <= i < |a| :: Lower(a[i]) == Lower(b[i])
  }

  /** The number of headers before the first whose name is the field sought; all if none is. */
  function FirstMatch(hs: seq<Header>, field: seq<byte>): (k: nat)
    ensures k <= |hs|
    ensures k < |hs| ==> SameName(hs[k].name, field)
    ensures forall i | 0 <= i < k :: !SameName(hs[i].name, field)
  {
    if hs == [] then 0
    else if SameName(hs[0].name, field) then 0
    else 1 + FirstMatch(hs[1..], field)
  }

  // ----- The C string functions the lookups use, on an index into the buffer -----

  predicate Ends(s: seq<byte>, from: nat, c: byte) {
    exists j | from <= j < |s| :: s[j] == c || s[j] == NUL
  }

  /** strchr(): the first c at or after from, or the terminator if that comes first. */
  method StrChr(s: seq<byte>, from: nat, c: byte) returns (i: nat)
    requires Ends(s, from, c)
    ensures from <= i < |s| && (s[i] == c || s[i] == NUL)
    ensures forall j | from <= j < i :: s[j] != c && s[j] != NUL
  {
    i := from;
    while s[i] != c && s[i] != NUL
      invariant from <= i < |s| && Ends(s, i, c)
      invariant forall j | from <= j < i :: s[j] != c && s[j] != NUL
      decreases |s| - i
    {
      i := i + 1;
    }
  }

  /** strncasecmp(s + at, field, |field|) == 0 */
  method SameText(s: seq<byte>, at: nat, field: seq<byte>) returns (same: bool)
    requires at + |field| <= |s|
    ensures same <==> SameName(s[at..at + |field|], field)
  {
    var i := 0;
    while i < |field|
      invariant 0 <= i <= |field|
      invariant forall j | 0 <= j < i :: Lower(s[at + j]) == Lower(field[j])
    {
      if Lower(s[at + i]) != Lower(field[i]) {
        assert s[at..at + |field|][i] == s[at + i];
        return false;
      }
      i := i + 1;
    }
    same := true;
  }

  // ----- The lookups -----

  /** A stored line as the pointers of a lookup see it. */
  ghost predicate LineAt(store: seq<byte>, a: nat, h: Header) {
    && a + |Stored(h)| <= |store|
    && (forall j | a <= j < a + |h.name| :: store[j] == h.name[j - a])
    && store[a + |h.name|] == COLON
    && (forall j | a + |h.name| < j < a + ValueAt(h) :: store[j] == SP)
    && (forall j | a + ValueAt(h) <= j < a + |Line(h)| :: store[j] == h.value[j - a - ValueAt(h)])
    && (forall j | a + |Line(h)| <= j < a + |Stored(h)| :: store[j] == NUL)
  }

  lemma StoredIsLineAt(h: Header)
    ensures LineAt(Stored(h), 0, h)
  {
  }

  lemma LineInStore(store: seq<byte>, hs: seq<Header>, k: nat)
    requires k < |hs| && StoredAll(hs) <= store
    ensures LineAt(store, Start(hs, k), hs[k])
    ensures Start(hs, k + 1) == Start(hs, k) + |Stored(hs[k])|
  {
    hide Stored, LineAt, StoredAll, Start;
    StoredWithin(hs, k);
    PrefixSlice(StoredAll(hs), store, Start(hs, k), Start(hs, k + 1));
    LineMoved(store, Start(hs, k), hs[k]);
  }

  lemma PrefixSlice(p: seq<byte>, s: seq<byte>, a: nat, b: nat)
    requires p <= s && a <= b <= |p|
    ensures s[a..b] == p[a..b]
  {
    assert s[..|p|] == p;
  }

  lemma LineMoved(store: seq<byte>, a: nat, h: Header)
    requires a + |Stored(h)| <= |store| && store[a..a + |Stored(h)|] == Stored(h)
    ensures LineAt(store, a, h)
  {
    var p := Stored(h);
    StoredIsLineAt(h);
    forall j | a <= j < a + |p| ensures store[j] == p[j - a] {
      assert store[a..a + |p|][j - a] == store[j];
    }
  }

  lemma TextHasNoNul(store: seq<byte>, a: nat, h: Header)
    requires GoodHeader(h) && LineAt(store, a, h)
    ensures forall i | a <= i < a + |Line(h)| :: store[i] != NUL
    ensures forall i | a <= i < a + |h.name| :: store[i] != COLON
    ensures a + ValueAt(h) < |store| && store[a + ValueAt(h)] != SP
    ensures a + |Line(h)| < |store| && store[a + |Line(h)|] == NUL
  {
    forall i | a <= i < a + |Line(h)| ensures store[i] != NUL {
      if i < a + |h.name| {
        assert h.name[i - a] in h.name;
      } else if a + ValueAt(h) <= i {
        assert h.value[i - a - ValueAt(h)] in h.value;
      }
    }
    forall i | a <= i < a + |h.name| ensures store[i] != COLON {
      assert h.name[i - a] in h.name;
    }
  }

  /** The jump to the next header: past the text, then past the NULs. */
  method NextLine(store: seq<byte>, ptr: nat, ghost h: Header, ghost h': Header) returns (next: nat)
    requires GoodHeader(h) && GoodHeader(h')
    requires LineAt(store, ptr, h) && LineAt(store, ptr + |Stored(h)|, h')
    ensures next == ptr + |Stored(h)|
  {
    TextHasNoNul(store, ptr, h);
    TextHasNoNul(store, ptr + |Stored(h)|, h');
    next := ptr;
    while store[next] != NUL
      invariant ptr <= next <= ptr + |Line(h)|
      decreases |store| - next
    {
      next := next + 1;
    }
    next := next + 1;
    while store[next] == NUL
      invariant ptr + |Line(h)| < next <= ptr + |Stored(h)|
      decreases |store| - next
    {
      next := next + 1;
    }
  }

  /** The name at ptr, up to its colon, against the field sought. */
  method NameMatches(store: seq<byte>, ptr: nat, field: seq<byte>, ghost h: Header) returns (colon: nat, same: bool)
    requires GoodHeader(h) && LineAt(store, ptr, h)
    ensures colon == ptr + |h.name| && colon < |store| && store[colon] == COLON
    ensures same <==> SameName(h.name, field)
  {
    TextHasNoNul(store, ptr, h);
    assert store[ptr + |h.name|] == COLON;
    colon := StrChr(store, ptr, COLON);
    same := false;
    if colon - ptr == |field| {
      same := SameText(store, ptr, field);
      assert store[ptr..ptr + |field|] == h.name;
    }
  }

  /** From the colon to the value: the spaces are skipped. */
  method SkipSpaces(store: seq<byte>, colon: nat, ghost ptr: nat, ghost h: Header) returns (at: nat)
    requires GoodHeader(h) && LineAt(store, ptr, h) && colon == ptr + |h.name|
    ensures at == ptr + ValueAt(h)
  {
    TextHasNoNul(store, ptr, h);
    at := colon + 1;
    while store[at] != NUL && store[at] == SP
      invariant colon < at <= ptr + ValueAt(h)
      decreases |store| - at
    {
      at := at + 1;
    }
  }

  /** One turn of the loop that both lookups run: the k-th header is tried. */
  method TryLine(store: seq<byte>, ptr: nat, left: nat, field: seq<byte>, ghost hs: seq<Header>, ghost k: nat)
    returns (same: bool, at: nat)
    requires GoodHeaders(hs) && StoredAll(hs) <= store && k < |hs| && left == |hs| - k - 1 && ptr == Start(hs, k)
    ensures same <==> SameName(hs[k].name, field)
    ensures same ==> at == Start(hs, k) + ValueAt(hs[k])
    ensures !same && left != 0 ==> at == Start(hs, k + 1)
  {
    hide LineAt, Start, StoredAll, Stored, SameName;
    LineInStore(store, hs, k);
    var colon;
    colon, same := NameMatches(store, ptr, field, hs[k]);
    at := ptr;
    if same {
      at := SkipSpaces(store, colon, ptr, hs[k]);
    } else if left != 0 {
      LineInStore(store, hs, k + 1);
      at := NextLine(store, ptr, hs[k], hs[k + 1]);
    }
  }

  /** The loop both lookups share: the index of the value found. */
  method FindValue(store: seq<byte>, count: nat, field: seq<byte>, ghost hs: seq<Header>)
    returns (found: bool, at: nat)
    requires GoodHeaders(hs) && StoredAll(hs) <= store && count == |hs|
    ensures found <==> FirstMatch(hs, field) < |hs|
    ensures found ==> var k := FirstMatch(hs, field); at == Start(hs, k) + ValueAt(hs[k])
  {
    var left, ptr := count, 0;
    ghost var k := 0;
    while left != 0
      invariant k + left == |hs| && (left != 0 ==> ptr == Start(hs, k))
      invariant forall i | 0 <= i < k :: !SameName(hs[i].name, field)
    {
      left := left - 1;
      found, ptr := TryLine(store, ptr, left, field, hs, k);
      if found {
        FirstMatchIs(hs, field, k);
        return true, ptr;
      }
      k := k + 1;
    }
    return false, 0;
  }

  lemma {:induction false} FirstMatchIs(hs: seq<Header>, field: seq<byte>, k: nat)
    requires k < |hs| && SameName(hs[k].name, field)
    requires forall i | 0 <= i < k :: !SameName(hs[i].name, field)
    ensures FirstMatch(hs, field) == k
  {
    if k > 0 {
      FirstMatchIs(hs[1..], field, k - 1);
    }
  }

  /** strlen() of a value in the store. */
  method ValueLength(store: seq<byte>, at: nat, ghost ptr: nat, ghost h: Header) returns (n: nat)
    requires GoodHeader(h) && LineAt(store, ptr, h) && at == ptr + ValueAt(h)
    ensures n == |h.value|
  {
    TextHasNoNul(store, ptr, h);
    var i := at;
    while store[i] != NUL
      invariant at <= i <= ptr + |Line(h)|
      decreases |store| - i
    {
      i := i + 1;
    }
    n := i - at;
  }

  /** httpd_req_get_hdr_value_len() */
  method HdrValueLen(store: seq<byte>, count: nat, field: seq<byte>, ghost hs: seq<Header>) returns (n: nat)
    requires GoodHeaders(hs) && StoredAll(hs) <= store && count == |hs|
    ensures var k := FirstMatch(hs, field); n == if k < |hs| then |hs[k].value| else 0
  {
    var found, at := FindValue(store, count, field, hs);
    n := 0;
    if found {
      ghost var k := FirstMatch(hs, field);
      LineInStore(store, hs, k);
      n := ValueLength(store, at, Start(hs, k), hs[k]);
    }
  }

  datatype Err = OK | NOT_FOUND | RESULT_TRUNC

  /**
   httpd_req_get_hdr_value_str(), with val_size the size of the caller's buffer.  The length
   test lets one size through that it should not: see TruncatedYetOk.
   */
  method HdrValueStr(store: seq<byte>, count: nat, field: seq<byte>, val: array<byte>, ghost hs: seq<Header>)
    returns (r: Err)
    requires GoodHeaders(hs) && StoredAll(hs) <= store && count == |hs|
    modifies val
    ensures var k := FirstMatch(hs, field);
            r == if k == |hs| then NOT_FOUND else ResultFor(|hs[k].value|, val.Length)
    ensures r == NOT_FOUND || val.Length == 0 ==> val[..] == old(val[..])
    ensures r != NOT_FOUND && val.Length > 0 ==>
      var v := hs[FirstMatch(hs, field)].value;
      var n := CopiedLength(|v|, val.Length);
      val[..n] == v[..n] && val[n] == NUL && val[n + 1..] == old(val[n + 1..])
  {
    var found, at := FindValue(store, count, field, hs);
    if !found {
      return NOT_FOUND;
    }
    ghost var k := FirstMatch(hs, field);
    LineInStore(store, hs, k);
    var full := ValueLength(store, at, Start(hs, k), hs[k]);
    if val.Length > 0 {
      var n := if full < val.Length then full else val.Length - 1;
      forall i | 0 <= i < n {
        val[i] := store[at + i];
      }
      val[n] := NUL;
    }
    r := if val.Length < full then RESULT_TRUNC else OK;
  }

  function ResultFor(len: nat, size: nat): Err {
    if size < len then RESULT_TRUNC else OK
  }

  /** What strlcpy() copies of a value into a buffer of the given size. */
  function CopiedLength(len: nat, size: nat): nat
    requires size > 0
  {
    if len < size then len else size - 1
  }

  /** The documentation promises an error whenever the value did not fit.  It is missing at
      exactly one buffer size, that of the value without its terminator. */
  lemma TruncatedYetOk(len: nat, size: nat)
    requires size > 0
    ensures ResultFor(len, size) == OK && CopiedLength(len, size) < len <==> size == len
  {
  }
}
