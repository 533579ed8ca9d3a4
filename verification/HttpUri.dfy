/** The handler table and the URI templates of components/esp_http_server/src/httpd_uri.c. */
module HttpUri {
  import opened Common

  const HTTP_ANY: int := 0x7FFF_FFFF

  // ----- Templates -----

  /** The language of templates that esp_http_server.h documents: p, p*, pc? and pc?* (or pc*?). */
  datatype Template =
    | Plain(p: string)
    | Any(p: string)
    | Maybe(p: string, c: char)
    | MaybeAny(p: string, c: char)
    | Invalid

  function Read(t: string): Template {
    var n := |t|;
    if n >= 2 && (t[n - 2..] == "?*" || t[n - 2..] == "*?") then
      if n == 2 then Invalid else MaybeAny(t[..n - 3], t[n - 3])
    else if n >= 1 && t[n - 1] == '*' then Any(t[..n - 1])
    else if n >= 1 && t[n - 1] == '?' then
      if n == 1 then Invalid else Maybe(t[..n - 2], t[n - 2])
    else Plain(t)
  }

  predicate Accepts(t: Template, uri: string) {
    match t
    case Plain(p) => uri == p
    case Any(p) => p <= uri
    case Maybe(p, c) => uri == p || uri == p + [c]
    case MaybeAny(p, c) => uri == p || p + [c] <= uri
    case Invalid => false
  }

  /** strncmp() of n characters that both strings have. */
  predicate SameUpTo(a: string, b: string, n: nat)
    requires n <= |a| && n <= |b|
  {
    a[..n] == b[..n]
  }

  /** httpd_uri_match_simple() */
  predicate MatchSimple(template: string, uri: string) {
    |template| == |uri| && SameUpTo(template, uri, |uri|)
  }

  /** httpd_uri_match_wildcard() */
  predicate MatchWildcard(template: string, uri: string) {
    var tplLen := |template|;
    var last := if tplLen > 0 then template[tplLen - 1] else '\0';
    var prevlast := if tplLen > 1 then template[tplLen - 2] else '\0';
    var asterisk := last == '*' || (prevlast == '*' && last == '?');
    var quest := last == '?' || (prevlast == '?' && last == '*');
    var special := (if asterisk then 1 else 0) + (if quest then 2 else 0);
    if tplLen < special then false else
      var exact := tplLen - special;
      if |uri| < exact then false
      else if !quest then
        if !asterisk && |uri| != exact then false else SameUpTo(template, uri, exact)
      else if |uri| > exact && template[exact] != uri[exact] then false
      else if !SameUpTo(template, uri, exact) then false
      else asterisk || |uri| <= exact + 1
  }

  /** The matcher accepts exactly the documented language. */
  lemma MatcherIsTheLanguage(template: string, uri: string)
    ensures MatchWildcard(template, uri) <==> Accepts(Read(template), uri)
    ensures MatchSimple(template, uri) <==> Accepts(Plain(template), uri)
  {
    assert template[..|template|] == template && uri[..|uri|] == uri;
    var n := |template|;
    match Read(template)
    case Plain(p) =>
      EndsIn(template);
    case Any(p) =>
      EndsIn(template);
      PrefixIs(p, uri);
    case Maybe(p, c) =>
      EndsIn(template);
      PrefixThen(p, c, uri);
    case MaybeAny(p, c) =>
      EndsIn(template);
      PrefixThen(p, c, uri);
    case Invalid =>
      EndsIn(template);
  }

  /** What the last two characters are, slice or index. */
  lemma EndsIn(t: string)
    ensures var n := |t|;
            n >= 2 ==> (t[n - 2..] == "?*" <==> t[n - 2] == '?' && t[n - 1] == '*')
    ensures var n := |t|;
            n >= 2 ==> (t[n - 2..] == "*?" <==> t[n - 2] == '*' && t[n - 1] == '?')
  {
    var n := |t|;
    if n >= 2 {
      assert t[n - 2..] == [t[n - 2], t[n - 1]];
    }
  }

  lemma PrefixIs(p: string, uri: string)
    ensures p <= uri <==> |uri| >= |p| && uri[..|p|] == p
  {
  }

  lemma PrefixThen(p: string, c: char, uri: string)
    ensures p + [c] <= uri <==> |uri| > |p| && uri[..|p|] == p && uri[|p|] == c
    ensures uri == p + [c] <==> |uri| == |p| + 1 && uri[..|p|] == p && uri[|p|] == c
    ensures uri == p <==> |uri| == |p| && uri[..|p|] == p
  {
    if |uri| > |p| && uri[..|p|] == p && uri[|p|] == c {
      assert uri[..|p| + 1] == p + [c];
    }
  }

  /** A template is a URI of its own language exactly when it does not end in a lone question mark. */
  lemma OwnTextMatches(t: string)
    ensures MatchWildcard(t, t) <==> !Read(t).Maybe? && !Read(t).Invalid?
  {
    MatcherIsTheLanguage(t, t);
    EndsIn(t);
    if Read(t).MaybeAny? {
      PrefixThen(t[..|t| - 3], t[|t| - 3], t);
      assert t[..|t| - 2][..|t| - 3] == t[..|t| - 3];
    }
  }

  // ----- The table -----

  datatype Handler = Handler(uri: string, verb: int, id: nat)

  datatype Err = OK | NotFound404 | MethodNotAllowed405

  datatype Result = Done | HandlerExists | HandlersFull | NotFound

  predicate UriMatches(wildcard: bool, h: Handler, uri: string) {
    if wildcard then MatchWildcard(h.uri, uri) else MatchSimple(h.uri, uri)
  }

  predicate Serves(wildcard: bool, h: Handler, uri: string, verb: int) {
    UriMatches(wildcard, h, uri) && (h.verb == verb || h.verb == HTTP_ANY)
  }

  /** Which handler a request is for: the first that serves it, or why there is none. */
  predicate IsLookup(w: bool, list: seq<Handler>, uri: string, verb: int, r: Option<Handler>, err: Err) {
    match r
    case Some(h) =>
      && err == OK
      && exists i :: 0 <= i < |list| && list[i] == h && Serves(w, h, uri, verb)
                     && forall j | 0 <= j < i :: !Serves(w, list[j], uri, verb)
    case None =>
      && (forall j | 0 <= j < |list| :: !Serves(w, list[j], uri, verb))
      && err == if exists j :: 0 <= j < |list| && UriMatches(w, list[j], uri) then MethodNotAllowed405 else NotFound404
  }

  /** The list without its entries for a URI, in the same order. */
  function Without(list: seq<Handler>, uri: string): (r: seq<Handler>)
    ensures |r| <= |list|
  {
    if list == [] then [] else
      var n := |list| - 1;
      Without(list[..n], uri) + if list[n].uri == uri then [] else [list[n]]
  }

  /** No entry is hidden by an earlier one on its own text. */
  predicate NoneHidden(w: bool, list: seq<Handler>) {
    forall i, j | 0 <= i < j < |list| :: !Serves(w, list[i], list[j].uri, list[j].verb)
  }

  /** So an entry whose text is a URI of its own language is the one found for it. */
  lemma OwnEntryFound(w: bool, list: seq<Handler>, j: nat, r: Option<Handler>, err: Err)
    requires NoneHidden(w, list) && j < |list| && UriMatches(w, list[j], list[j].uri)
    requires IsLookup(w, list, list[j].uri, list[j].verb, r, err)
    ensures r == Some(list[j]) && err == OK
  {
    var h := list[j];
    assert Serves(w, h, h.uri, h.verb);
    var i :| 0 <= i < |list| && list[i] == r.value && Serves(w, list[i], h.uri, h.verb)
      && forall k | 0 <= k < i :: !Serves(w, list[k], h.uri, h.verb);
    assert i == j;
  }

  lemma {:induction false} WithoutKeeps(list: seq<Handler>, uri: string)
    ensures forall h :: h in Without(list, uri) <==> h in list && h.uri != uri
    ensures (forall h | h in list :: h.uri != uri) ==> Without(list, uri) == list
  {
    if list != [] {
      var n := |list| - 1;
      WithoutKeeps(list[..n], uri);
      assert list == list[..n] + [list[n]];
    }
  }

  lemma WithoutStep(list: seq<Handler>, uri: string, i: nat)
    ensures Without(list[..0], uri) == []
    ensures i < |list| ==>
              Without(list[..i + 1], uri) == Without(list[..i], uri) + if list[i].uri == uri then [] else [list[i]]
  {
    if i < |list| {
      assert list[..i + 1][..i] == list[..i];
    }
  }

  lemma HidesNoneNext(w: bool, kept: seq<Handler>, list: seq<Handler>, n: nat)
    requires n < |list| && NoneHidden(w, kept) && NoneHidden(w, list)
    requires forall i | 0 <= i < |kept| :: kept[i] in list[..n]
    ensures NoneHidden(w, kept + [list[n]])
  {
    hide Serves;
    forall i | 0 <= i < |kept| ensures !Serves(w, kept[i], list[n].uri, list[n].verb) {
      assert kept[i] in list[..n];
      var j :| 0 <= j < n && list[j] == kept[i];
    }
  }

  lemma {:induction false} WithoutHidesNone(w: bool, list: seq<Handler>, uri: string)
    requires NoneHidden(w, list)
    ensures NoneHidden(w, Without(list, uri))
  {
    if list == [] {
      assert Without(list, uri) == [];
    } else {
      var n := |list| - 1;
      FewerHideNone(w, list, n);
      WithoutHidesNone(w, list[..n], uri);
      hide NoneHidden;
      WithoutSubset(list[..n], uri);
      HidesNoneNext(w, Without(list[..n], uri), list, n);
      assert Without(list[..n], uri) + [] == Without(list[..n], uri);
    }
  }

  lemma FewerHideNone(w: bool, list: seq<Handler>, n: nat)
    requires NoneHidden(w, list) && n <= |list|
    ensures NoneHidden(w, list[..n])
  {
    hide Serves;
  }

  lemma WithoutSubset(list: seq<Handler>, uri: string)
    ensures forall i | 0 <= i < |Without(list, uri)| :: Without(list, uri)[i] in list
  {
    WithoutKeeps(list, uri);
    var r := Without(list, uri);
    forall i | 0 <= i < |r| ensures r[i] in list {
      assert r[i] in r;
    }
  }

  class Table {
    const hdCalls: array<Option<Handler>>
    const wildcard: bool

    /** The registered handlers, in order. */
    ghost var list: seq<Handler>

    constructor (maxUriHandlers: nat, wildcard: bool)
      ensures Valid() && fresh(hdCalls) && hdCalls.Length == maxUriHandlers && list == [] && this.wildcard == wildcard
    {
      this.wildcard := wildcard;
      hdCalls := new Option<Handler>[maxUriHandlers](_ => None);
      list := [];
    }

    /** The entries in use come first, in order. */
    ghost predicate Valid()
      reads this, hdCalls
    {
      && |list| <= hdCalls.Length
      && (forall i | 0 <= i < |list| :: hdCalls[i] == Some(list[i]))
      && (forall i | |list| <= i < hdCalls.Length :: hdCalls[i] == None)
    }

    /** httpd_find_uri_handler() */
    method Find(uri: string, verb: int) returns (r: Option<Handler>, err: Err)
      requires Valid()
      ensures IsLookup(wildcard, list, uri, verb, r, err)
    {
      hide MatchSimple, MatchWildcard;
      err := NotFound404;
      var i := 0;
      while i < hdCalls.Length && hdCalls[i].Some?
        invariant i <= |list| && forall j | 0 <= j < i :: !Serves(wildcard, list[j], uri, verb)
        invariant err == if exists j :: 0 <= j < i && UriMatches(wildcard, list[j], uri)
                         then MethodNotAllowed405 else NotFound404
      {
        var h := hdCalls[i].value;
        if UriMatches(wildcard, h, uri) {
          if h.verb == verb || h.verb == HTTP_ANY {
            return Some(h), OK;
          }
          err := MethodNotAllowed405;
        }
        i := i + 1;
      }
      r := None;
    }

    /** httpd_register_uri_handler() */
    method Register(h: Handler) returns (r: Result)
      requires Valid()
      modifies this, hdCalls
      ensures Valid()
      ensures r == HandlerExists <==> exists i :: 0 <= i < |old(list)| && Serves(wildcard, old(list)[i], h.uri, h.verb)
      ensures r == HandlersFull <==> r != HandlerExists && |old(list)| == hdCalls.Length
      ensures r == Done || r == HandlerExists || r == HandlersFull
      ensures r == Done ==> list == old(list) + [h]
      ensures r != Done ==> list == old(list)
      ensures r == Done && NoneHidden(wildcard, old(list)) ==> NoneHidden(wildcard, list)
    {
      hide MatchSimple, MatchWildcard, UriMatches;
      var found, _ := Find(h.uri, h.verb);
      if found.Some? {
        return HandlerExists;
      }
      var i := 0;
      while i < hdCalls.Length
        invariant i <= |list|
      {
        if hdCalls[i].None? {
          hdCalls[i] := Some(h);
          list := list + [h];
          return Done;
        }
        i := i + 1;
      }
      r := HandlersFull;
    }

    /** httpd_unregister_uri_handler(): removes the first entry for the URI and the method. */
    method Unregister(uri: string, verb: int) returns (r: Result)
      requires Valid()
      modifies this, hdCalls
      ensures Valid()
      ensures r == NotFound <==> forall j | 0 <= j < |old(list)| :: old(list)[j].uri != uri || old(list)[j].verb != verb
      ensures r == NotFound ==> list == old(list)
      ensures r != NotFound ==> r == Done && exists i ::
        && 0 <= i < |old(list)| && old(list)[i].uri == uri && old(list)[i].verb == verb
        && (forall j | 0 <= j < i :: old(list)[j].uri != uri || old(list)[j].verb != verb)
        && list == old(list)[..i] + old(list)[i + 1..]
      ensures NoneHidden(wildcard, old(list)) ==> NoneHidden(wildcard, list)
    {
      hide Serves;
      var i := 0;
      while i < hdCalls.Length && hdCalls[i].Some?
        invariant i <= |list| && forall j | 0 <= j < i :: list[j].uri != uri || list[j].verb != verb
      {
        if hdCalls[i].value.verb == verb && hdCalls[i].value.uri == uri {
          ShiftDown(i);
          return Done;
        }
        i := i + 1;
      }
      r := NotFound;
    }

    /** The inner loop of httpd_unregister_uri_handler(): closes the gap at `at`. */
    method ShiftDown(at: nat)
      requires Valid() && at < |list|
      modifies this, hdCalls
      ensures Valid() && list == old(list)[..at] + old(list)[at + 1..]
    {
      hide UriMatches, MatchSimple, MatchWildcard;
      ghost var was := list;
      hdCalls[at] := None;
      var i := at + 1;
      while i < hdCalls.Length && hdCalls[i].Some?
        invariant at < i <= |was| && list == was
        invariant forall j | 0 <= j < at :: hdCalls[j] == Some(was[j])
        invariant forall j | at <= j < i - 1 :: hdCalls[j] == Some(was[j + 1])
        invariant forall j | i <= j < |was| :: hdCalls[j] == Some(was[j])
        invariant forall j | |was| <= j < hdCalls.Length :: hdCalls[j] == None
      {
        hdCalls[i - 1] := hdCalls[i];
        i := i + 1;
      }
      hdCalls[i - 1] := None;
      list := was[..at] + was[at + 1..];
    }

    /** The slots from lo up to hi are emptied. */
    method Blank(lo: nat, hi: nat)
      requires lo <= hi <= hdCalls.Length
      modifies hdCalls
      ensures forall k | 0 <= k < hdCalls.Length :: hdCalls[k] == if lo <= k < hi then None else old(hdCalls[k])
    {
      for k := lo to hi
        invariant forall m | 0 <= m < hdCalls.Length :: hdCalls[m] == if lo <= m < k then None else old(hdCalls[m])
      {
        hdCalls[k] := None;
      }
    }

    /** httpd_unregister_uri(): removes all entries for the URI and keeps the others in order. */
    method UnregisterUri(uri: string) returns (r: Result)
      requires Valid()
      modifies this, hdCalls
      ensures Valid() && list == Without(old(list), uri)
      ensures r == if exists j :: 0 <= j < |old(list)| && old(list)[j].uri == uri then Done else NotFound
      ensures NoneHidden(wildcard, old(list)) ==> NoneHidden(wildcard, list)
    {
      hide Without, NoneHidden;
      ghost var was := list;
      WithoutStep(was, uri, 0);
      var found, i, j := false, 0, 0;
      while i < hdCalls.Length && hdCalls[i].Some?
        invariant 0 <= j <= i <= |was| && list == was
        invariant |Without(was[..i], uri)| == i - j
        invariant forall k | 0 <= k < i - j :: hdCalls[k] == Some(Without(was[..i], uri)[k])
        invariant forall k | i <= k < |was| :: hdCalls[k] == Some(was[k])
        invariant forall k | |was| <= k < hdCalls.Length :: hdCalls[k] == None
        invariant found <==> exists k :: 0 <= k < i && was[k].uri == uri
      {
        WithoutStep(was, uri, i);
        if hdCalls[i].value.uri == uri {
          hdCalls[i] := None;
          found := true;
          j := j + 1;
        } else {
          hdCalls[i - j] := hdCalls[i];
        }
        i := i + 1;
      }
      assert was[..i] == was;
      Blank(i - j, i);
      list := Without(was, uri);
      if NoneHidden(wildcard, was) {
        WithoutHidesNone(wildcard, was, uri);
      }
      r := if found then Done else NotFound;
    }
  }

  /** With the wildcard of a lone slash for any method in the table, no request for a path ends in a 404 or a 405. */
  lemma EveryPathServed(list: seq<Handler>, h: Handler, uri: string, verb: int, r: Option<Handler>, err: Err)
    requires h in list && h.uri == "/*" && h.verb == HTTP_ANY && uri != [] && uri[0] == '/'
    requires IsLookup(true, list, uri, verb, r, err)
    ensures r.Some? && err == OK
  {
    MatcherIsTheLanguage("/*", uri);
    assert "/*"[..1] == "/" && "/" <= uri;
    assert Serves(true, h, uri, verb);
  }

  /**
   The check in httpd_register_uri_handler() goes by the text of the new template.  A second copy is
   refused when that text is a URI of the template's own language, and "/a/?" can be there twice.
   */
  method RegisteredTwice() returns (first: Result, second: Result)
    ensures first == second == Done
  {
    var t := new Table(2, true);
    OwnTextMatches("/a/?");
    assert "/a/?"[2..] == "/?" && Read("/a/?") == Maybe("/a", '/');
    first := t.Register(Handler("/a/?", 1, 0));
    second := t.Register(Handler("/a/?", 1, 0));
  }
}
