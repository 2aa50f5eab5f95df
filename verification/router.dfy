/** The HTTP router: a byte trie of registered paths, searched for the longest
    registered prefix of a request path, and the table of handlers by path. */
module Router {
  import opened Base

  /** Identifies one registered handler. */
  type HandlerId = nat

  /** The trie is kept as the set of strings that name a node (the path from the root
      to it) and the set of nodes marked `isEnd`; the root is the empty string. */
  datatype Router = Router(nodes: set<string>, ends: set<string>, routes: map<string, HandlerId>)

  /** Every prefix of a node is a node, the root exists, and every end is a node. */
  ghost predicate Valid(r: Router) {
    && "" in r.nodes
    && (forall s, i :: s in r.nodes && 0 <= i <= |s| ==> s[..i] in r.nodes)
    && r.ends <= r.nodes
  }

  /** A router with only the root node and no routes. */
  function NewRouter(): (r: Router)
    ensures Valid(r) && r.ends == {} && r.routes == map[]
  {
    Router({""}, {}, map[])
  }

  /** `normalizePathSlash(path)`: the empty path becomes "/", a path without a leading
      '/' gets one. */
  function NormalizePathSlash(path: string): (p: string)
    ensures |p| > 0 && p[0] == '/'
    ensures |path| > 0 && path[0] == '/' ==> p == path
    ensures |path| > 0 && path[0] != '/' ==> p == "/" + path
    ensures path == "" ==> p == "/"
  {
    if path == "" then "/" else if path[0] != '/' then "/" + path else path
  }

  /** Normalising twice is normalising once. */
  lemma NormalizeIdempotent(path: string)
    ensures NormalizePathSlash(NormalizePathSlash(path)) == NormalizePathSlash(path)
  {
  }

  /** Every prefix of `p`, the root included. */
  function Prefixes(p: string): (ps: set<string>)
    ensures forall i :: 0 <= i <= |p| ==> p[..i] in ps
    ensures forall s :: s in ps ==> s <= p
  {
    set i | 0 <= i <= |p| :: p[..i]
  }

  /** `insert(prefix)`: creates the missing nodes along `prefix` and marks its last one. */
  function Insert(r: Router, prefix: string): (r': Router)
    requires Valid(r)
    ensures Valid(r')
    ensures r'.nodes == r.nodes + Prefixes(prefix) && r'.ends == r.ends + {prefix}
    ensures r'.routes == r.routes
  {
    var r' := r.(nodes := r.nodes + Prefixes(prefix), ends := r.ends + {prefix});
    forall s, i | s in Prefixes(prefix) && 0 <= i <= |s| ensures s[..i] in r'.nodes {
      var j :| 0 <= j <= |prefix| && s == prefix[..j];
      assert s[..i] == prefix[..i];
    }
    assert prefix == prefix[..|prefix|];
    r'
  }

  /** The walk of `longestPrefixMatch` from depth `i` (the node `query[..i]`), remembering
      the deepest end passed so far. */
  function Walk(r: Router, query: string, i: nat, longest: string): (m: string)
    requires i <= |query|
    decreases |query| - i
  {
    if i == |query| || query[..i + 1] !in r.nodes then longest
    else Walk(r, query, i + 1, if query[..i + 1] in r.ends then query[..i + 1] else longest)
  }

  /** `longestPrefixMatch(query)`. */
  function LongestPrefixMatch(r: Router, query: string): (m: string)
  {
    Walk(r, query, 0, "")
  }

  /** `m` is a non-empty registered end that is a prefix of `query`. */
  ghost predicate MatchesEnd(r: Router, query: string, m: string) {
    m in r.ends && m <= query && |m| >= 1
  }

  /** The walk returns the longest non-empty end that is a prefix of the query, or ""
      when there is none; the root's mark is never consulted. */
  lemma {:induction false} WalkLongest(r: Router, query: string, i: nat, longest: string)
    requires Valid(r) && i <= |query| && query[..i] in r.nodes
    requires longest == "" || (MatchesEnd(r, query, longest) && |longest| <= i)
    requires forall e :: MatchesEnd(r, query, e) && |e| <= i ==> |e| <= |longest|
    ensures var m := Walk(r, query, i, longest);
            && (m == "" || MatchesEnd(r, query, m))
            && (forall e :: MatchesEnd(r, query, e) ==> |e| <= |m|)
    decreases |query| - i
  {
    if i == |query| {
    } else if query[..i + 1] !in r.nodes {
      forall e | MatchesEnd(r, query, e) ensures |e| <= i {
        NodePrefix(r, query, e, i);
      }
    } else {
      var next := if query[..i + 1] in r.ends then query[..i + 1] else longest;
      forall e | MatchesEnd(r, query, e) && |e| <= i + 1 ensures |e| <= |next| {
        if |e| == i + 1 {
          assert e == query[..i + 1];
        }
      }
      WalkLongest(r, query, i + 1, next);
    }
  }

  /** A node that is a prefix of the query puts every shorter prefix of the query in
      the trie. */
  lemma NodePrefix(r: Router, query: string, e: string, i: nat)
    requires Valid(r) && e in r.nodes && e <= query
    ensures i < |e| ==> query[..i + 1] in r.nodes
  {
    if i < |e| {
      assert e[..i + 1] == query[..i + 1];
    }
  }

  /** `longestPrefixMatch` is "" or a registered prefix of the query, and no longer
      registered prefix exists. */
  lemma LongestPrefixMatchSpec(r: Router, query: string)
    requires Valid(r)
    ensures var m := LongestPrefixMatch(r, query);
            && (m == "" || MatchesEnd(r, query, m))
            && (forall e :: MatchesEnd(r, query, e) ==> |e| <= |m|)
  {
    WalkLongest(r, query, 0, "");
  }

  /** Two registered prefixes of the same query with the same length are the same, so
      the match is determined. */
  lemma MatchUnique(r: Router, query: string, a: string, b: string)
    requires MatchesEnd(r, query, a) && MatchesEnd(r, query, b) && |a| == |b|
    ensures a == b
  {
    assert a == query[..|a|] && b == query[..|b|];
  }

  /** After `insert(p)` with a non-empty `p`, matching `p` itself returns `p`. */
  lemma InsertThenMatch(r: Router, p: string)
    requires Valid(r) && |p| >= 1
    ensures LongestPrefixMatch(Insert(r, p), p) == p
  {
    var r' := Insert(r, p);
    LongestPrefixMatchSpec(r', p);
    var m := LongestPrefixMatch(r', p);
    assert MatchesEnd(r', p, p);
    MatchUnique(r', p, m, p);
  }

  /** `add(path, h)`: normalises the path, stores the handler and inserts the path. */
  function Add(r: Router, path: string, h: HandlerId): (r': Router)
    requires Valid(r)
    ensures Valid(r')
    ensures r'.routes == r.routes[NormalizePathSlash(path) := h]
    ensures r'.ends == r.ends + {NormalizePathSlash(path)}
  {
    var p := NormalizePathSlash(path);
    Insert(r.(routes := r.routes[p := h]), p)
  }

  /** `find(path)`: the handler stored for the longest registered prefix of the
      normalised path; a missing entry is a nil handler. */
  function Find(r: Router, path: string): (h: Option<HandlerId>)
  {
    var prefix := LongestPrefixMatch(r, NormalizePathSlash(path));
    if prefix in r.routes then Some(r.routes[prefix]) else None
  }

  /** Every route was added under its own trie end, and the empty path never is. */
  ghost predicate Routed(r: Router) {
    r.routes.Keys == r.ends && "" !in r.ends
  }

  lemma AddKeepsRouted(r: Router, path: string, h: HandlerId)
    requires Valid(r) && Routed(r)
    ensures Routed(Add(r, path, h))
  {
  }

  /** A path finds the handler it was just added with, however it is written. */
  lemma AddThenFind(r: Router, path: string, h: HandlerId)
    requires Valid(r)
    ensures Find(Add(r, path, h), path) == Some(h)
  {
    var p := NormalizePathSlash(path);
    InsertThenMatch(r.(routes := r.routes[p := h]), p);
  }

  /** With no registered path a prefix of the request path, `find` returns no handler. */
  lemma FindMissing(r: Router, path: string)
    requires Valid(r) && Routed(r)
    requires forall e :: e in r.ends ==> !(e <= NormalizePathSlash(path))
    ensures Find(r, path) == None
  {
    LongestPrefixMatchSpec(r, NormalizePathSlash(path));
  }

  /** Otherwise it returns the handler of the longest registered prefix. */
  lemma FindLongest(r: Router, path: string, e: string)
    requires Valid(r) && Routed(r)
    requires e in r.ends && e <= NormalizePathSlash(path)
    ensures Find(r, path).Some?
    ensures exists m ::
      && MatchesEnd(r, NormalizePathSlash(path), m)
      && Find(r, path) == Some(r.routes[m])
      && (forall e' :: MatchesEnd(r, NormalizePathSlash(path), e') ==> |e'| <= |m|)
  {
    var q := NormalizePathSlash(path);
    LongestPrefixMatchSpec(r, q);
    assert MatchesEnd(r, q, e);
    var m := LongestPrefixMatch(r, q);
    assert MatchesEnd(r, q, m);
  }

  /** A string of the model holds the bytes of a Go string, one `char` per byte. */
  predicate Ascii(s: string) {
    forall k :: 0 <= k < |s| ==> (s[k] as int) < 0x80
  }

  /** `string(b)` for a byte `b`: Go converts the byte to the rune of the same value and
      encodes it in UTF-8, so a byte from 0x80 up becomes two bytes. */
  function RuneBytes(c: char): (e: string)
    ensures (c as int) < 0x80 ==> e == [c]
    ensures (c as int) >= 0x80 ==> |e| == 2
  {
    var b := c as int % 0x100;
    if (c as int) < 0x80 then [c] else [(0xC0 + b / 0x40) as char, (0x80 + b % 0x40) as char]
  }

  /** The string the walk of `longestPrefixMatch` builds from the bytes of `s`, one
      `string(char)` per byte. */
  function Expand(s: string): (e: string)
    decreases |s|
  {
    if s == [] then [] else Expand(s[..|s| - 1]) + RuneBytes(s[|s| - 1])
  }

  /** Expanding changes nothing exactly on ASCII strings; any other string grows. */
  lemma {:induction false} ExpandAscii(s: string)
    ensures Ascii(s) ==> Expand(s) == s
    ensures !Ascii(s) ==> |Expand(s)| > |s|
    ensures |Expand(s)| >= |s|
    decreases |s|
  {
    if s != [] {
      var init := s[..|s| - 1];
      ExpandAscii(init);
      if Ascii(s) {
        assert Ascii(init);
        assert s == init + [s[|s| - 1]];
      } else if Ascii(init) {
        var k :| 0 <= k < |s| && (s[k] as int) >= 0x80;
        if k < |s| - 1 {
          assert init[k] == s[k];
        }
      }
    }
  }

  /** The walk of `longestPrefixMatch` as written: `currentPrefix` grows by
      `string(char)` for every byte matched. */
  function WalkAsWritten(r: Router, query: string, i: nat, current: string, longest: string): (m: string)
    requires i <= |query|
    decreases |query| - i
  {
    if i == |query| || query[..i + 1] !in r.nodes then longest
    else
      var current' := current + RuneBytes(query[i]);
      WalkAsWritten(r, query, i + 1, current', if query[..i + 1] in r.ends then current' else longest)
  }

  /** The written walk returns the expansion of what the byte walk returns. */
  lemma {:induction false} WalkAsWrittenExpands(r: Router, query: string, i: nat, longest: string)
    requires i <= |query|
    ensures WalkAsWritten(r, query, i, Expand(query[..i]), Expand(longest)) == Expand(Walk(r, query, i, longest))
    decreases |query| - i
  {
    if i < |query| && query[..i + 1] in r.nodes {
      assert query[..i + 1][..i] == query[..i];
      var next := if query[..i + 1] in r.ends then query[..i + 1] else longest;
      WalkAsWrittenExpands(r, query, i + 1, next);
    }
  }

  /** `longestPrefixMatch(query)` as written: the expansion of the longest registered
      prefix of the query rather than that prefix. */
  function LongestPrefixMatchAsWritten(r: Router, query: string): (m: string)
    ensures m == Expand(LongestPrefixMatch(r, query))
  {
    assert query[..0] == [];
    WalkAsWrittenExpands(r, query, 0, "");
    WalkAsWritten(r, query, 0, "", "")
  }

  /** `find(path)` as written: the route table is looked up with the written match. */
  function FindAsWritten(r: Router, path: string): (h: Option<HandlerId>)
    ensures Ascii(LongestPrefixMatch(r, NormalizePathSlash(path))) ==> h == Find(r, path)
  {
    var prefix := LongestPrefixMatchAsWritten(r, NormalizePathSlash(path));
    ExpandAscii(LongestPrefixMatch(r, NormalizePathSlash(path)));
    if prefix in r.routes then Some(r.routes[prefix]) else None
  }

  /** On a path of ASCII bytes the written `find` is the byte-wise one, so every
      property proved of `Find` holds for it. */
  lemma FindAsWrittenAscii(r: Router, path: string)
    requires Valid(r) && Ascii(NormalizePathSlash(path))
    ensures FindAsWritten(r, path) == Find(r, path)
  {
    var q := NormalizePathSlash(path);
    LongestPrefixMatchSpec(r, q);
    var m := LongestPrefixMatch(r, q);
    assert forall k :: 0 <= k < |m| ==> m[k] == q[k];
  }

  /** A path holding a byte from 0x80 up is added but never found again: the written
      match is longer than every registered path. */
  lemma NonAsciiAddThenFindAsWritten(path: string, h: HandlerId)
    requires !Ascii(NormalizePathSlash(path))
    ensures Find(Add(NewRouter(), path, h), path) == Some(h)
    ensures FindAsWritten(Add(NewRouter(), path, h), path) == None
  {
    var p := NormalizePathSlash(path);
    var r := NewRouter().(routes := map[p := h]);
    AddThenFind(NewRouter(), path, h);
    InsertThenMatch(r, p);
    ExpandAscii(p);
  }

  /** `add("/é", h)` then `find("/é")`: the UTF-8 bytes C3 A9 match in the trie but the
      walk builds the key "/Ã©", which has no handler. */
  lemma AccentedPathIsLost(h: HandlerId)
    ensures var p := ['/', 0xC3 as char, 0xA9 as char];
            && Find(Add(NewRouter(), p, h), p) == Some(h)
            && FindAsWritten(Add(NewRouter(), p, h), p) == None
  {
    var p := ['/', 0xC3 as char, 0xA9 as char];
    assert !Ascii(NormalizePathSlash(p)) by {
      assert NormalizePathSlash(p)[1] == 0xC3 as char;
    }
    NonAsciiAddThenFindAsWritten(p, h);
  }
}
