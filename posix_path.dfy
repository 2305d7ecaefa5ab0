/** The two functions of Node's POSIX `path` module that the adapter calls:
    `path.join`, which builds object keys from a directory and a file name,
    and `path.basename`, which picks the last component of a URL in `read`.
    Node itself is not part of this model; both are specified from their
    documented behaviour, and `Join` only for arguments without `.` or `..`
    components. */
module PosixPath {
  import opened JsString

  /** No two adjacent slashes. */
  predicate NoDoubleSlash(s: string)
  {
    forall i | 0 <= i < |s| - 1 :: !(s[i] == '/' && s[i + 1] == '/')
  }

  /** The characters of `s` other than `/`, in order. */
  function Unslashed(s: string): (r: string)
    ensures '/' !in r
    decreases |s|
  {
    if s == [] then [] else (if s[0] == '/' then [] else [s[0]]) + Unslashed(s[1..])
  }

  lemma {:induction false} UnslashedAppend(a: string, b: string)
    ensures Unslashed(a + b) == Unslashed(a) + Unslashed(b)
    decreases |a|
  {
    if a != [] {
      assert (a + b)[1..] == a[1..] + b;
      UnslashedAppend(a[1..], b);
    } else {
      assert a + b == b;
    }
  }

  lemma UnslashedDropFirst(s: string)
    requires s != [] && s[0] == '/'
    ensures Unslashed(s[1..]) == Unslashed(s)
  {
  }

  lemma UnslashedDropLast(s: string)
    requires s != [] && s[|s| - 1] == '/'
    ensures Unslashed(s[..|s| - 1]) == Unslashed(s)
  {
    var last := s[|s| - 1..];
    assert s == s[..|s| - 1] + last;
    UnslashedAppend(s[..|s| - 1], last);
    assert Unslashed(last) == [] by {
      assert last[1..] == [];
    }
  }

  /** Runs of `/` collapsed into one, which is all that normalisation does to a
      path without `.` or `..` components. */
  function CollapseSlashes(s: string): (r: string)
    ensures NoDoubleSlash(r)
    ensures r == [] <==> s == []
    ensures s != [] ==> r[0] == s[0] && r[|r| - 1] == s[|s| - 1]
    decreases |s|
  {
    if |s| < 2 then s
    else if s[0] == '/' && s[1] == '/' then CollapseSlashes(s[1..])
    else
      var t := CollapseSlashes(s[1..]);
      var r := [s[0]] + t;
      assert forall i | 1 <= i < |r| :: r[i] == t[i - 1];
      r
  }

  /** Collapsing keeps the part before the first slash and every non-empty
      component, in order: with the two ends and the absence of doubled
      slashes, this fixes the collapsed path completely. */
  lemma {:induction false} CollapseKeepsSegments(s: string)
    ensures Segments(CollapseSlashes(s))[0] == Segments(s)[0]
    ensures NonEmpty(Segments(CollapseSlashes(s))) == NonEmpty(Segments(s))
    decreases |s|
  {
    if |s| >= 2 {
      CollapseKeepsSegments(s[1..]);
      if s[0] == '/' && s[1] == '/' {
        DoubledSlashSegments(s);
      } else {
        ConsCollapsed(s, CollapseSlashes(s[1..]));
      }
    }
  }

  /** The first character of `s` in front of a path with the same components
      as `s[1..]` gives a path with the same components as `s`. */
  lemma ConsCollapsed(s: string, t: string)
    requires s != []
    requires Segments(t)[0] == Segments(s[1..])[0]
    requires NonEmpty(Segments(t)) == NonEmpty(Segments(s[1..]))
    ensures Segments([s[0]] + t)[0] == Segments(s)[0]
    ensures NonEmpty(Segments([s[0]] + t)) == NonEmpty(Segments(s))
  {
    assert s == [s[0]] + s[1..];
    ConsSameSegments(s[0], t, s[1..]);
  }

  /** A leading slash adds only an empty first component. */
  lemma LeadingSlashSegments(s: string)
    requires s != [] && s[0] == '/'
    ensures Segments(s)[0] == []
    ensures NonEmpty(Segments(s)) == NonEmpty(Segments(s[1..]))
  {
    assert s == [s[0]] + s[1..];
    SegmentsCons('/', s[1..]);
    NonEmptyAppend([[]], Segments(s[1..]));
  }

  /** So a doubled slash in front adds only an empty component too. */
  lemma DoubledSlashSegments(s: string)
    requires |s| >= 2 && s[0] == '/' && s[1] == '/'
    ensures Segments(s)[0] == Segments(s[1..])[0] == []
    ensures NonEmpty(Segments(s)) == NonEmpty(Segments(s[1..]))
  {
    LeadingSlashSegments(s);
    LeadingSlashSegments(s[1..]);
  }

  /** Paths with the same first component and the same non-empty components
      keep both once the same character is put in front of them. */
  lemma ConsSameSegments(c: char, u: string, v: string)
    requires Segments(u)[0] == Segments(v)[0]
    requires NonEmpty(Segments(u)) == NonEmpty(Segments(v))
    ensures Segments([c] + u)[0] == Segments([c] + v)[0]
    ensures NonEmpty(Segments([c] + u)) == NonEmpty(Segments([c] + v))
  {
    SegmentsCons(c, u);
    SegmentsCons(c, v);
    var su, sv := Segments(u), Segments(v);
    if c == '/' {
      NonEmptyAppend([[]], su);
      NonEmptyAppend([[]], sv);
    } else {
      SplitFirst(su);
      SplitFirst(sv);
      NonEmptyAppend([su[0]], su[1..]);
      NonEmptyAppend([sv[0]], sv[1..]);
      CancelPrefix(NonEmpty([su[0]]), NonEmpty(su[1..]), NonEmpty(sv[1..]));
      NonEmptyAppend([[c] + su[0]], su[1..]);
      NonEmptyAppend([[c] + su[0]], sv[1..]);
    }
  }

  /** Collapsing keeps every character other than `/`, in order. */
  lemma {:induction false} CollapseKeepsContent(s: string)
    ensures Unslashed(CollapseSlashes(s)) == Unslashed(s)
    decreases |s|
  {
    if |s| >= 2 {
      CollapseKeepsContent(s[1..]);
      if !(s[0] == '/' && s[1] == '/') {
        assert ([s[0]] + CollapseSlashes(s[1..]))[1..] == CollapseSlashes(s[1..]);
      }
    }
  }

  /** A path without doubled slashes is left as it is. */
  lemma {:induction false} CollapseIdentity(s: string)
    requires NoDoubleSlash(s)
    ensures CollapseSlashes(s) == s
    decreases |s|
  {
    if |s| >= 2 {
      assert NoDoubleSlash(s[1..]) by {
        forall i | 0 <= i < |s[1..]| - 1 ensures !(s[1..][i] == '/' && s[1..][i + 1] == '/') {
          assert s[1..][i] == s[i + 1] && s[1..][i + 1] == s[i + 2];
        }
      }
      CollapseIdentity(s[1..]);
      assert !(s[0] == '/' && s[1] == '/');
      assert [s[0]] + s[1..] == s;
    }
  }

  /** The components of `s` between slashes (the string itself when it has none). */
  function Segments(s: string): (r: seq<string>)
    ensures |r| >= 1
    decreases |s|
  {
    var i := IndexOf(s, '/');
    if i == -1 then [s] else [s[..i]] + Segments(s[i + 1..])
  }

  /** The components that are not empty: what remains of a path once the
      number of slashes between components no longer matters. */
  function NonEmpty(segs: seq<string>): (r: seq<string>)
    ensures |r| <= |segs|
    ensures forall k | 0 <= k < |r| :: r[k] != []
    decreases |segs|
  {
    if segs == [] then [] else (if segs[0] == [] then [] else [segs[0]]) + NonEmpty(segs[1..])
  }

  lemma {:induction false} NonEmptyAppend(a: seq<string>, b: seq<string>)
    ensures NonEmpty(a + b) == NonEmpty(a) + NonEmpty(b)
    decreases |a|
  {
    if a == [] {
      assert a + b == b;
    } else {
      assert (a + b)[1..] == a[1..] + b;
      NonEmptyAppend(a[1..], b);
    }
  }

  /** A `/` in front of a path opens a new, empty first component; any other
      character joins the first component. */
  lemma SegmentsCons(c: char, t: string)
    ensures c == '/' ==> Segments([c] + t) == [[]] + Segments(t)
    ensures c != '/' ==> Segments([c] + t) == [[c] + Segments(t)[0]] + Segments(t)[1..]
  {
    var s := [c] + t;
    assert s[1..] == t;
    if c != '/' {
      var i := IndexOf(t, '/');
      var k := IndexOf(s, '/');
      if i == -1 {
        assert '/' !in s;
      } else {
        assert s[..i + 1] == [c] + t[..i];
        assert s[i + 1] == '/';
        assert '/' !in s[..i + 1];
        assert k == i + 1;
        assert s[k + 1..] == t[i + 1..];
      }
    }
  }

  /** Gluing two paths with a `/` concatenates their components. */
  lemma {:induction false} SegmentsAround(a: string, b: string)
    ensures Segments(a + "/" + b) == Segments(a) + Segments(b)
    decreases |a|
  {
    if a == [] {
      assert a + "/" + b == ['/'] + b;
      SegmentsCons('/', b);
      assert Segments(a) == [[]];
    } else {
      var c, rest := a[0], a[1..];
      var u := rest + "/" + b;
      assert a + "/" + b == [c] + u;
      assert a == [c] + rest;
      SegmentsAround(rest, b);
      ConsSegmentsAppend(c, u, rest, Segments(b));
    }
  }

  /** Putting a character in front of `u`, whose components are those of
      `rest` followed by `tail`, acts on `rest`'s components only. */
  lemma ConsSegmentsAppend(c: char, u: string, rest: string, tail: seq<string>)
    requires Segments(u) == Segments(rest) + tail
    ensures Segments([c] + u) == Segments([c] + rest) + tail
  {
    SegmentsCons(c, u);
    SegmentsCons(c, rest);
    var x := Segments(rest);
    if c == '/' {
      Associative([[]], x, tail);
    } else {
      HeadTail(x, tail);
      Associative([[c] + x[0]], x[1..], tail);
    }
  }

  lemma Associative<X>(a: seq<X>, b: seq<X>, c: seq<X>)
    ensures a + (b + c) == (a + b) + c
  {
  }

  lemma HeadTail<X>(x: seq<X>, y: seq<X>)
    requires |x| >= 1
    ensures (x + y)[0] == x[0] && (x + y)[1..] == x[1..] + y
  {
  }

  lemma SplitFirst<X>(x: seq<X>)
    requires |x| >= 1
    ensures x == [x[0]] + x[1..]
  {
  }

  lemma CancelPrefix<X>(a: seq<X>, x: seq<X>, y: seq<X>)
    requires a + x == a + y
    ensures x == y
  {
    assert x == (a + x)[|a|..];
  }

  /** No component is `.` or `..`: the arguments `Join` is specified for. */
  predicate NoDotSegments(s: string)
  {
    forall seg | seg in Segments(s) :: seg != "." && seg != ".."
  }

  /** A name without a slash is one component, and clean unless empty or
      `.`/`..`. */
  lemma SingleComponent(s: string)
    requires s != [] && '/' !in s && s != "." && s != ".."
    ensures IsClean(s) && NoDotSegments(s)
  {
  }

  /** `path.join(dir, name)`: the non-empty arguments joined with `/`, then
      normalised; `.` when both are empty. The result keeps the non-empty
      components of both arguments in order, separates them by single
      slashes, and is absolute, or ends in a slash, exactly when the
      concatenated arguments are or do. */
  function Join(dir: string, name: string): (r: string)
    requires NoDotSegments(dir) && NoDotSegments(name)
    ensures r != [] && NoDoubleSlash(r)
    ensures dir + name == [] ==> r == "."
    ensures dir + name != [] ==> NonEmpty(Segments(r)) == NonEmpty(Segments(dir)) + NonEmpty(Segments(name))
    ensures var a := dir + name;
      a != [] ==> (r[0] == '/' <==> a[0] == '/') && (r[|r| - 1] == '/' <==> a[|a| - 1] == '/')
  {
    var joined := if dir == [] then name else if name == [] then dir else dir + "/" + name;
    CollapsedJoin(dir, name);
    if joined == [] then "." else CollapseSlashes(joined)
  }

  /** What `Join` promises, stated of the collapsed concatenation. */
  lemma CollapsedJoin(dir: string, name: string)
    ensures var joined, a := (if dir == [] then name else if name == [] then dir else dir + "/" + name), dir + name;
      a != [] ==>
        var r := CollapseSlashes(joined);
        && joined != []
        && NonEmpty(Segments(r)) == NonEmpty(Segments(dir)) + NonEmpty(Segments(name))
        && (r[0] == '/' <==> a[0] == '/') && (r[|r| - 1] == '/' <==> a[|a| - 1] == '/')
  {
    var joined := if dir == [] then name else if name == [] then dir else dir + "/" + name;
    if dir + name != [] {
      assert joined[0] == (dir + name)[0];
      assert joined[|joined| - 1] == (dir + name)[|dir + name| - 1];
      SegmentsJoined(dir, name);
      CollapseKeepsSegments(joined);
    }
  }

  lemma SegmentsJoined(dir: string, name: string)
    ensures var joined := if dir == [] then name else if name == [] then dir else dir + "/" + name;
      NonEmpty(Segments(joined)) == NonEmpty(Segments(dir)) + NonEmpty(Segments(name))
  {
    assert Segments([]) == [[]];
    assert NonEmpty([[]]) == [];
    if dir != [] && name != [] {
      SegmentsAround(dir, name);
      NonEmptyAppend(Segments(dir), Segments(name));
    }
  }

  /** Joining keeps every character other than `/` of both arguments, in order. */
  lemma {:induction false} JoinKeepsContent(dir: string, name: string)
    requires NoDotSegments(dir) && NoDotSegments(name)
    requires dir + name != []
    ensures Unslashed(Join(dir, name)) == Unslashed(dir) + Unslashed(name)
  {
    var joined := if dir == [] then name else if name == [] then dir else dir + "/" + name;
    assert Join(dir, name) == CollapseSlashes(joined);
    CollapseKeepsContent(joined);
    UnslashedJoined(dir, name);
  }

  lemma {:induction false} UnslashedJoined(dir: string, name: string)
    ensures var joined := if dir == [] then name else if name == [] then dir else dir + "/" + name;
      Unslashed(joined) == Unslashed(dir) + Unslashed(name)
  {
    if dir == [] {
      assert Unslashed(dir) == [];
      assert [] + Unslashed(name) == Unslashed(name);
    } else if name == [] {
      assert Unslashed(name) == [];
      assert Unslashed(dir) + [] == Unslashed(dir);
    } else {
      var tail := "/" + name;
      UnslashedAppend(dir, tail);
      assert tail[0] == '/' && tail[1..] == name;
      assert Unslashed(tail) == Unslashed(name);
      assert dir + "/" + name == dir + tail;
    }
  }

  /** A relative, non-empty path with no doubled and no trailing slash,
      such as `content/images/2024`. */
  predicate IsClean(s: string)
  {
    s != [] && s[0] != '/' && s[|s| - 1] != '/' && NoDoubleSlash(s)
  }

  /** Joining two clean arguments inserts exactly one `/` and changes nothing else. */
  lemma {:induction false} JoinClean(dir: string, name: string)
    requires IsClean(dir) && IsClean(name)
    requires NoDotSegments(dir) && NoDotSegments(name)
    ensures Join(dir, name) == dir + "/" + name
  {
    var joined := dir + "/" + name;
    forall i | 0 <= i < |joined| - 1 ensures !(joined[i] == '/' && joined[i + 1] == '/') {
      if i < |dir| - 1 {
        assert joined[i] == dir[i] && joined[i + 1] == dir[i + 1];
      } else if i > |dir| {
        assert joined[i] == name[i - |dir| - 1] && joined[i + 1] == name[i - |dir|];
      }
    }
    CollapseIdentity(joined);
  }

  /** Trailing slashes removed. */
  function TrimTrailingSlashes(p: string): (r: string)
    ensures r <= p
    ensures r == [] || r[|r| - 1] != '/'
    ensures forall i | |r| <= i < |p| :: p[i] == '/'
    decreases |p|
  {
    if p != [] && p[|p| - 1] == '/' then TrimTrailingSlashes(p[..|p| - 1]) else p
  }

  /** The longest suffix of `p` without a slash. */
  function LastSegment(p: string): (r: string)
    ensures |r| <= |p| && r == p[|p| - |r|..]
    ensures '/' !in r
    ensures |r| == |p| || p[|p| - |r| - 1] == '/'
    decreases |p|
  {
    if p == [] || p[|p| - 1] == '/' then []
    else
      var t := LastSegment(p[..|p| - 1]);
      assert p[..|p| - 1][|p| - 1 - |t|..] + [p[|p| - 1]] == p[|p| - |t| - 1..];
      t + [p[|p| - 1]]
  }

  /** `path.basename(p)`: the last component once trailing slashes are
      ignored; empty when `p` holds nothing but slashes. */
  function Basename(p: string): (r: string)
    ensures '/' !in r
    ensures r == [] <==> forall i | 0 <= i < |p| :: p[i] == '/'
  {
    var t := TrimTrailingSlashes(p);
    assert t != [] ==> t[|t| - 1] == p[|t| - 1];
    LastSegment(t)
  }

  /** The basename of `a/b` is `b` when `b` is a non-empty name without a slash. */
  lemma {:induction false} BasenameAfterSlash(a: string, b: string)
    requires b != [] && '/' !in b
    ensures Basename(a + "/" + b) == b
  {
    var p := a + "/" + b;
    assert p[|p| - 1] == b[|b| - 1];
    assert TrimTrailingSlashes(p) == p;
    assert p[|a|] == '/';
    assert forall i | |a| < i < |p| :: p[i] == b[i - |a| - 1];
    assert p[|p| - |b|..] == b;
  }
}
