/** Directory paths: PHP's dirname on a POSIX system and the upward search for docker-compose.yml. */
module Paths {
  import opened Results

  predicate IsAbsolute(p: string)
  {
    |p| > 0 && p[0] == '/'
  }

  /** s without its trailing run of ch. */
  function TrimRight(s: string, ch: char): (r: string)
    ensures r <= s
    ensures forall i :: |r| <= i < |s| ==> s[i] == ch
    ensures r == [] || r[|r| - 1] != ch
    decreases |s|
  {
    if s != [] && s[|s| - 1] == ch then TrimRight(s[..|s| - 1], ch) else s
  }

  /** s without its last path component: the trailing run of characters other than '/'. */
  function TrimBasename(s: string): (r: string)
    ensures r <= s
    ensures forall i :: |r| <= i < |s| ==> s[i] != '/'
    ensures r == [] || r[|r| - 1] == '/'
    decreases |s|
  {
    if s != [] && s[|s| - 1] != '/' then TrimBasename(s[..|s| - 1]) else s
  }

  /**
   * PHP dirname(p) with one level: strip trailing slashes, then the last
   * component, then the slashes before it; "/" when only slashes remain,
   * "." when there was no slash, "" for "".
   */
  function Dirname(p: string): (d: string)
    ensures IsAbsolute(p) ==> IsAbsolute(d) && d <= p && (|p| > 1 ==> |d| < |p|)
    ensures IsAbsolute(p) ==> d == "/" || (d[|d| - 1] != '/' && p[|d|] == '/')
  {
    if p == [] then []
    else
      var a := TrimRight(p, '/');
      if a == [] then "/"
      else
        var b := TrimBasename(a);
        if b == [] then "."
        else
          var c := TrimRight(b, '/');
          if c == [] then "/" else c
  }

  /**
   * What dirname drops from p: from position |d| on, a run of '/', one
   * non-empty component between positions k and l, and the trailing run of '/'.
   */
  predicate DropsOneComponent(p: string, d: string, k: nat, l: nat)
  {
    && |d| <= k < l <= |p|
    && (forall i :: |d| <= i < k ==> p[i] == '/')
    && (forall i :: k <= i < l ==> p[i] != '/')
    && (forall i :: l <= i < |p| ==> p[i] == '/')
  }

  /**
   * dirname of an absolute path made only of slashes is "/". Otherwise it
   * is the prefix left after removing trailing slashes, the last component
   * and the slashes before it, or "/" when nothing but slashes is left.
   */
  lemma DirnameDrops(p: string)
    requires IsAbsolute(p)
    ensures (forall i :: 0 <= i < |p| ==> p[i] == '/') ==> Dirname(p) == "/"
    ensures (exists i :: 0 <= i < |p| && p[i] != '/') ==>
              && Dirname(p) <= p
              && (Dirname(p) == "/" || Dirname(p)[|Dirname(p)| - 1] != '/')
              && exists k, l :: DropsOneComponent(p, Dirname(p), k, l)
  {
    var a := TrimRight(p, '/');
    if a == [] {
      assert forall i :: 0 <= i < |p| ==> p[i] == '/';
    } else {
      assert a[0] == p[0] == '/';
      var b := TrimBasename(a);
      assert b != [];
      assert |b| < |a| by {
        if |b| == |a| { assert b == a; }
      }
      var c := TrimRight(b, '/');
      var d := Dirname(p);
      assert d == if c == [] then "/" else c;
      forall i | 0 <= i < |b| ensures p[i] == b[i] {
        assert a[i] == b[i];
      }
      forall i | 0 <= i < |a| ensures p[i] == a[i] {
      }
      assert DropsOneComponent(p, d, |b|, |a|) by {
        forall i | |d| <= i < |b| ensures p[i] == '/' {
          assert b[i] == '/';
        }
        forall i | |b| <= i < |a| ensures p[i] != '/' {
          assert a[i] != '/';
        }
      }
    }
  }

  /**
   * The list the transformer searches: the working directory, then the
   * dirname of each entry in turn, ending with the first "/" reached.
   */
  function Ancestors(p: string): seq<string>
    requires IsAbsolute(p)
    decreases |p|
  {
    var up := Dirname(p);
    if up == "/" then [p, "/"] else [p] + Ancestors(up)
  }

  /** The tree starts at p and ends at "/", and holds at least those two entries. */
  lemma {:induction false} AncestorsEnds(p: string)
    requires IsAbsolute(p)
    ensures var t := Ancestors(p); |t| >= 2 && t[0] == p && t[|t| - 1] == "/"
    decreases |p|
  {
    var up := Dirname(p);
    if up != "/" {
      AncestorsEnds(up);
    }
  }

  /** Each entry is the dirname of the one before it, and "/" appears only at the end. */
  lemma {:induction false} AncestorsChain(p: string)
    requires IsAbsolute(p)
    ensures forall i :: 0 <= i < |Ancestors(p)| - 1 ==> Ancestors(p)[i + 1] == Dirname(Ancestors(p)[i])
    ensures forall i :: 1 <= i < |Ancestors(p)| - 1 ==> Ancestors(p)[i] != "/"
    decreases |p|
  {
    var up := Dirname(p);
    if up != "/" {
      AncestorsChain(up);
      AncestorsEnds(up);
      var t, u := Ancestors(p), Ancestors(up);
      assert t == [p] + u;
      forall i | 0 <= i < |t| - 1 ensures t[i + 1] == Dirname(t[i]) && (i > 0 ==> t[i] != "/") {
        assert t[i + 1] == u[i];
        if i > 0 {
          assert t[i] == u[i - 1];
        } else {
          assert t[1] == up && t[0] == p;
        }
      }
    }
  }

  lemma PrefixTransitive(a: string, b: string, c: string)
    requires a <= b && b <= c
    ensures a <= c
  {
    assert c[..|b|][..|a|] == c[..|a|];
  }

  /** Every entry is an absolute path and a prefix of p. */
  lemma {:induction false} AncestorsPrefixes(p: string)
    requires IsAbsolute(p)
    ensures forall i :: 0 <= i < |Ancestors(p)| ==> IsAbsolute(Ancestors(p)[i]) && Ancestors(p)[i] <= p
    decreases |p|
  {
    var up := Dirname(p);
    if up != "/" {
      AncestorsPrefixes(up);
      var t, u := Ancestors(p), Ancestors(up);
      assert t == [p] + u;
      forall i | 0 <= i < |t| ensures IsAbsolute(t[i]) && t[i] <= p {
        if i > 0 {
          assert t[i] == u[i - 1];
          PrefixTransitive(u[i - 1], up, p);
        }
      }
    }
  }

  /** One step of the walk: what is left of the tree after dir is the tree of dirname(dir). */
  lemma AncestorsStep(dir: string)
    requires IsAbsolute(dir)
    ensures var up := Dirname(dir);
            && (up == "/" ==> Ancestors(dir)[1..] == ["/"])
            && (up != "/" ==> IsAbsolute(up) && |up| < |dir| && Ancestors(dir)[1..] == [up] + Ancestors(up)[1..])
  {
    var up := Dirname(dir);
    if up != "/" {
      var u := Ancestors(up);
      assert u[0] == up;
      assert u == [up] + u[1..];
    }
  }

  /** Index of the first directory of tree that is in has. */
  function Nearest(tree: seq<string>, has: set<string>): (r: Option<nat>)
    ensures r.Some? ==> r.value < |tree| && tree[r.value] in has
    ensures r.Some? ==> forall j :: 0 <= j < r.value ==> tree[j] !in has
    ensures r.None? <==> forall j :: 0 <= j < |tree| ==> tree[j] !in has
    decreases |tree|
  {
    if tree == [] then None
    else if tree[0] in has then Some(0)
    else match Nearest(tree[1..], has)
      case None => None
      case Some(k) => Some(k + 1)
  }

  /**
   * The directory discovery settles on: the nearest ancestor of pwd (pwd
   * included) among the directories holding docker-compose.yml.
   */
  function Discover(pwd: string, has: set<string>): (r: Option<string>)
    requires IsAbsolute(pwd)
    ensures r.Some? ==> r.value in has
  {
    var tree := Ancestors(pwd);
    match Nearest(tree, has)
    case None => None
    case Some(i) => Some(tree[i])
  }

  /**
   * Discovery finds a directory exactly when one of the ancestors holds the
   * file; it is an ancestor of pwd, and no ancestor nearer to pwd holds one.
   */
  lemma DiscoverSpec(pwd: string, has: set<string>)
    requires IsAbsolute(pwd)
    ensures Discover(pwd, has).None? <==> forall d :: d in Ancestors(pwd) ==> d !in has
    ensures Discover(pwd, has).Some? ==> var d := Discover(pwd, has).value; d in has && d <= pwd && IsAbsolute(d)
    ensures Discover(pwd, has).Some? ==>
              exists i :: 0 <= i < |Ancestors(pwd)| && Ancestors(pwd)[i] == Discover(pwd, has).value
                          && forall j :: 0 <= j < i ==> Ancestors(pwd)[j] !in has
  {
    var tree := Ancestors(pwd);
    AncestorsPrefixes(pwd);
    if Discover(pwd, has).None? {
      forall d | d in tree ensures d !in has {
        var j :| 0 <= j < |tree| && tree[j] == d;
      }
    }
  }

  /** The example tree /a/b/c where only /a holds the file, and a tree with no such directory. */
  lemma DirnameExamples()
    ensures Dirname("/a/b/c") == "/a/b"
    ensures Dirname("/a/b") == "/a"
    ensures Dirname("/a") == "/"
    ensures Dirname("/z") == "/"
    ensures Dirname("/") == "/"
  {
    assert TrimRight("/a/b/c", '/') == "/a/b/c";
    assert TrimBasename("/a/b/c") == "/a/b/";
    assert TrimRight("/a/b/", '/') == "/a/b";
    assert TrimRight("/a/b", '/') == "/a/b";
    assert TrimBasename("/a/b") == "/a/";
    assert TrimRight("/a/", '/') == "/a";
    assert TrimRight("/a", '/') == "/a";
    assert TrimBasename("/a") == "/";
    assert TrimRight("/z", '/') == "/z";
    assert TrimBasename("/z") == "/";
    assert TrimRight("/", '/') == "";
  }

  lemma DiscoverExamples()
    ensures Ancestors("/a/b/c") == ["/a/b/c", "/a/b", "/a", "/"]
    ensures Discover("/a/b/c", {"/a"}) == Some("/a")
    ensures Discover("/a/b", {"/a"}) == Some("/a")
    ensures Discover("/z", {"/a"}) == None
  {
    DirnameExamples();
    assert Ancestors("/a") == ["/a", "/"];
    assert Ancestors("/a/b") == ["/a/b", "/a", "/"];
    assert Ancestors("/z") == ["/z", "/"];
  }
}
