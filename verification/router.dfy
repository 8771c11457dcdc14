/** The storage-key derivation of the router worker (`index.ts`): the
    pathname's non-empty `/`-separated segments give the deployment and the
    asset, the hostname gives the environment, and the key is
    `environment/deployId/assetPath`. */
module Router {

  // ---------------------------------------------------------------------
  // `String.prototype.split` and `Array.prototype.join` on one character

  /** `s.split(sep)`: the pieces between the separators, always at least one. */
  function Split(s: string, sep: char): (r: seq<string>)
    ensures |r| >= 1
    ensures forall i :: 0 <= i < |r| ==> sep !in r[i]
    decreases |s|
  {
    if |s| == 0 then
      [""]
    else
      var rest := Split(s[1..], sep);
      if s[0] == sep then [""] + rest else [[s[0]] + rest[0]] + rest[1..]
  }

  /** `parts.join(sep)`. */
  function Join(parts: seq<string>, sep: char): string
    decreases |parts|
  {
    if |parts| == 0 then ""
    else if |parts| == 1 then parts[0]
    else parts[0] + [sep] + Join(parts[1..], sep)
  }

  /** Splitting a join of separator-free pieces gives the pieces back. */
  lemma {:induction false} SplitJoin(parts: seq<string>, sep: char)
    requires |parts| > 0 && forall i :: 0 <= i < |parts| ==> sep !in parts[i]
    ensures Split(Join(parts, sep), sep) == parts
    decreases |parts|
  {
    if |parts| == 1 {
      SplitWithout(parts[0], sep);
    } else {
      SplitJoin(parts[1..], sep);
      SplitAround(parts[0], Join(parts[1..], sep), sep);
      assert [parts[0]] + parts[1..] == parts;
    }
  }

  /** Joining the pieces gives back the string that was split. */
  lemma {:induction false} JoinSplit(s: string, sep: char)
    ensures Join(Split(s, sep), sep) == s
    decreases |s|
  {
    if |s| > 0 {
      var rest := Split(s[1..], sep);
      JoinSplit(s[1..], sep);
      if s[0] == sep {
        assert Split(s, sep) == [""] + rest;
        assert Join([""] + rest, sep) == "" + [sep] + Join(rest, sep) by {
          assert ([""] + rest)[1..] == rest;
        }
        assert s == [s[0]] + s[1..];
      } else {
        var head := [s[0]] + rest[0];
        assert Split(s, sep) == [head] + rest[1..];
        if |rest| == 1 {
          assert Join([head], sep) == head;
        } else {
          assert ([head] + rest[1..])[1..] == rest[1..];
          assert Join(rest, sep) == rest[0] + [sep] + Join(rest[1..], sep);
        }
        assert s == [s[0]] + s[1..];
      }
    }
  }

  /** Splitting around one separator splits each side on its own. */
  lemma {:induction false} SplitAround(a: string, b: string, sep: char)
    requires sep !in a
    ensures Split(a + [sep] + b, sep) == [a] + Split(b, sep)
    decreases |a|
  {
    if |a| == 0 {
      assert a + [sep] + b == [sep] + b;
      assert ([sep] + b)[1..] == b;
    } else {
      SplitAround(a[1..], b, sep);
      assert (a + [sep] + b)[1..] == a[1..] + [sep] + b;
      assert [a[0]] + a[1..] == a;
    }
  }

  /** A string without the separator is one piece. */
  lemma {:induction false} SplitWithout(a: string, sep: char)
    requires sep !in a
    ensures Split(a, sep) == [a]
    decreases |a|
  {
    if |a| > 0 {
      SplitWithout(a[1..], sep);
      assert [a[0]] + a[1..] == a;
    }
  }

  // ---------------------------------------------------------------------
  // Path segments

  /** `.filter(Boolean)` on strings: keep the non-empty ones. */
  function NonEmpty(parts: seq<string>): (r: seq<string>)
    ensures forall i :: 0 <= i < |r| ==> r[i] != ""
    ensures forall s :: s in r <==> s in parts && s != ""
    decreases |parts|
  {
    if |parts| == 0 then []
    else if parts[0] == "" then NonEmpty(parts[1..])
    else [parts[0]] + NonEmpty(parts[1..])
  }

  /** On one piece the filter keeps it exactly when it is non-empty; with
      NonEmptyAppend this fixes the filter on every list, order included. */
  lemma NonEmptySingle(s: string)
    ensures NonEmpty([s]) == (if s == "" then [] else [s])
  {
    assert [s][1..] == [];
  }

  lemma {:induction false} NonEmptyAppend(p: seq<string>, q: seq<string>)
    ensures NonEmpty(p + q) == NonEmpty(p) + NonEmpty(q)
    decreases |p|
  {
    if |p| == 0 {
      assert p + q == q;
    } else {
      NonEmptyAppend(p[1..], q);
      assert (p + q)[1..] == p[1..] + q;
    }
  }

  /** A well-formed segment: non-empty and free of `/`. */
  predicate IsSegment(s: string)
  {
    s != "" && '/' !in s
  }

  /** `url.pathname.split('/').filter(Boolean)`. */
  function Segments(pathname: string): (r: seq<string>)
    ensures forall i :: 0 <= i < |r| ==> IsSegment(r[i])
  {
    var parts := Split(pathname, '/');
    var r := NonEmpty(parts);
    assert forall i :: 0 <= i < |r| ==> r[i] in parts;
    r
  }

  lemma SegmentsEmpty()
    ensures Segments("") == []
  {
    assert Split("", '/') == [""];
    assert [""][1..] == [];
  }

  /** A leading `/` adds no segment. */
  lemma SegmentsSlash(b: string)
    ensures Segments("/" + b) == Segments(b)
  {
    assert "/" + b == [] + ['/'] + b;
    SplitAround([], b, '/');
    NonEmptyAppend([""], Split(b, '/'));
    assert NonEmpty([""]) == [] by {
      assert [""][1..] == [];
    }
  }

  /** A segment before a `/` is the first segment. */
  lemma SegmentsCons(a: string, b: string)
    requires IsSegment(a)
    ensures Segments(a + "/" + b) == [a] + Segments(b)
  {
    SplitAround(a, b, '/');
    NonEmptyAppend([a], Split(b, '/'));
    assert NonEmpty([a]) == [a] by {
      assert [a][1..] == [];
    }
  }

  /** A lone segment is its own only segment. */
  lemma SegmentsOfSegment(a: string)
    requires IsSegment(a)
    ensures Segments(a) == [a]
  {
    SplitWithout(a, '/');
    assert NonEmpty([a]) == [a] by {
      assert [a][1..] == [];
    }
  }

  /** Joining well-formed segments with `/`, leading slash or not, and
      splitting the result gives the segments back. */
  lemma {:induction false} SegmentsOfJoin(segs: seq<string>)
    requires forall i :: 0 <= i < |segs| ==> IsSegment(segs[i])
    ensures Segments(Join(segs, '/')) == segs
    ensures Segments("/" + Join(segs, '/')) == segs
    decreases |segs|
  {
    if |segs| == 0 {
      SegmentsEmpty();
    } else if |segs| == 1 {
      SegmentsOfSegment(segs[0]);
    } else {
      SegmentsOfJoin(segs[1..]);
      SegmentsCons(segs[0], Join(segs[1..], '/'));
      assert [segs[0]] + segs[1..] == segs;
    }
    SegmentsSlash(Join(segs, '/'));
  }

  // ---------------------------------------------------------------------
  // The key

  function StartsWith(s: string, prefix: string): bool
  {
    |prefix| <= |s| && s[..|prefix|] == prefix
  }

  /** `pathSegments[0] || 'core/home'`. */
  function DeployId(segs: seq<string>): (r: string)
    ensures |segs| > 0 && segs[0] != "" ==> r == segs[0]
    ensures |segs| == 0 ==> r == "core/home"
  {
    if |segs| > 0 && segs[0] != "" then segs[0] else "core/home"
  }

  /** `staging` for a hostname starting with `staging`, else `production`. */
  function Environment(hostname: string): (r: string)
    ensures r == "staging" <==> StartsWith(hostname, "staging")
    ensures r == "staging" || r == "production"
  {
    if StartsWith(hostname, "staging") then "staging" else "production"
  }

  /** The deployment is the first segment of the request path, whatever
      follows it, and `core/home` for the root path. */
  lemma DeployIdOfPath(d: string, rest: string)
    requires IsSegment(d)
    ensures DeployId(Segments("/" + d + "/" + rest)) == d
    ensures DeployId(Segments("/" + d)) == d
    ensures DeployId(Segments("/")) == "core/home"
  {
    assert "/" + d + "/" + rest == "/" + (d + "/" + rest);
    SegmentsSlash(d + "/" + rest);
    SegmentsCons(d, rest);
    SegmentsSlash(d);
    SegmentsOfSegment(d);
    assert "/" == "/" + "";
    SegmentsSlash("");
    SegmentsEmpty();
  }

  /** A `staging…` host is served from `staging`; a host whose first
      letter already differs is served from `production`. Either way the
      environment is one path segment. */
  lemma EnvironmentOfHost(first: char, rest: string)
    ensures Environment("staging" + rest) == "staging"
    ensures first != 's' ==> Environment([first] + rest) == "production"
    ensures IsSegment(Environment(rest))
  {
    assert ("staging" + rest)[..7] == "staging";
    if first != 's' {
      assert ([first] + rest)[0] != "staging"[0];
    }
    assert '/' !in "staging" && '/' !in "production";
  }

  /** The remaining segments joined by `/`, with `index.html` (after a `/`
      when something precedes it) unless the joined path names a file, that
      is, contains a `.`. */
  function AssetPath(segs: seq<string>): (r: string)
    ensures '.' in r
  {
    var joined := Join(if |segs| > 0 then segs[1..] else [], '/');
    if joined == "" || '.' !in joined then
      assert '.' == "index.html"[5];
      assert "/index.html"[6] == '.';
      if joined != "" then joined + "/index.html" else "index.html"
    else
      joined
  }

  /** The R2 object key for a request with this pathname and hostname. It
      never has an empty component, and read back as a path it is the
      environment, the deployment's segments, the rest of the request path,
      and `index.html` when the request did not name a file. */
  function R2Key(pathname: string, hostname: string): (r: string)
    ensures WellFormedPath(r)
    ensures Segments(r) == [Environment(hostname)] + KeyTail(Segments(pathname))
  {
    var segs := Segments(pathname);
    var env := Environment(hostname);
    EnvironmentOfHost('s', hostname);
    KeySegments(env, segs);
    KeyWellFormed(env, segs);
    env + "/" + DeployId(segs) + "/" + AssetPath(segs)
  }

  // ---------------------------------------------------------------------
  // Properties of the key

  /** The rest of the path: the segments after the deployment one. */
  function Rest(segs: seq<string>): seq<string>
  {
    if |segs| > 0 then segs[1..] else []
  }

  /** The asset path is the rest of the path as given when it already names
      a file, and otherwise the rest with `index.html` as one more segment. */
  lemma AssetPathCases(segs: seq<string>)
    ensures var joined := Join(Rest(segs), '/');
            && (joined == "" ==> AssetPath(segs) == "index.html")
            && (joined != "" && '.' !in joined ==> AssetPath(segs) == joined + "/index.html")
            && ('.' in joined ==> AssetPath(segs) == joined)
  {
  }

  /** A `/`-separated path without empty components: it neither starts nor
      ends with `/` and has no `//`. */
  predicate WellFormedPath(s: string)
  {
    && s != "" && s[0] != '/' && s[|s| - 1] != '/'
    && forall i :: 0 <= i < |s| - 1 ==> !(s[i] == '/' && s[i + 1] == '/')
  }

  lemma SegmentIsPath(s: string)
    requires IsSegment(s)
    ensures WellFormedPath(s)
  {
    assert s[0] in s && s[|s| - 1] in s;
    forall i | 0 <= i < |s| - 1
      ensures s[i] != '/'
    {
      assert s[i] in s;
    }
  }

  lemma ConcatPaths(a: string, b: string)
    requires WellFormedPath(a) && WellFormedPath(b)
    ensures WellFormedPath(a + "/" + b)
  {
    var s := a + "/" + b;
    forall i | 0 <= i < |s| - 1
      ensures !(s[i] == '/' && s[i + 1] == '/')
    {
      if i < |a| - 1 {
        assert s[i] == a[i] && s[i + 1] == a[i + 1];
      } else if i == |a| - 1 {
        assert s[i] == a[|a| - 1];
      } else if i == |a| {
        assert s[i + 1] == b[0];
      } else {
        assert s[i] == b[i - |a| - 1] && s[i + 1] == b[i - |a|];
      }
    }
  }

  lemma {:induction false} JoinIsPath(segs: seq<string>)
    requires |segs| > 0 && forall i :: 0 <= i < |segs| ==> IsSegment(segs[i])
    ensures WellFormedPath(Join(segs, '/'))
    decreases |segs|
  {
    SegmentIsPath(segs[0]);
    if |segs| > 1 {
      JoinIsPath(segs[1..]);
      ConcatPaths(segs[0], Join(segs[1..], '/'));
      assert Join(segs, '/') == segs[0] + "/" + Join(segs[1..], '/');
    }
  }

  /** Read back as a path, the key is the environment, the deployment's
      segments, the rest of the request path, and `index.html` when the
      request did not name a file. */
  lemma KeySegments(env: string, segs: seq<string>)
    requires IsSegment(env) && forall i :: 0 <= i < |segs| ==> IsSegment(segs[i])
    ensures Segments(env + "/" + DeployId(segs) + "/" + AssetPath(segs)) == [env] + KeyTail(segs)
  {
    var all := KeyTail(segs);
    KeyIsJoin(segs);
    KeyParts(env, DeployId(segs), AssetPath(segs));
    SegmentsOfJoin(all);
    SegmentsCons(env, Join(all, '/'));
  }

  /** The segments after the environment in a key: the deployment's
      segments (`core`, `home` by default), the rest of the request path,
      and `index.html` when the request did not name a file. */
  function KeyTail(segs: seq<string>): seq<string>
  {
    DeploySegments(segs) + Rest(segs) + IndexSuffix(Rest(segs))
  }

  lemma KeyIsJoin(segs: seq<string>)
    requires forall i :: 0 <= i < |segs| ==> IsSegment(segs[i])
    ensures forall i :: 0 <= i < |KeyTail(segs)| ==> IsSegment(KeyTail(segs)[i])
    ensures DeployId(segs) + "/" + AssetPath(segs) == Join(KeyTail(segs), '/')
  {
    var rest := Rest(segs);
    var deploySegs := DeploySegments(segs);
    var tail := IndexSuffix(rest);
    assert KeyTail(segs) == deploySegs + (rest + tail);
    DeployIsJoin(segs);
    AssetIsJoin(segs);
    JoinAppend(deploySegs, rest + tail);
    KeyTailSegments(segs);
  }

  lemma KeyTailSegments(segs: seq<string>)
    requires forall i :: 0 <= i < |segs| ==> IsSegment(segs[i])
    ensures forall i :: 0 <= i < |KeyTail(segs)| ==> IsSegment(KeyTail(segs)[i])
  {
    assert IsSegment("core") && IsSegment("home") && IsSegment("index.html");
  }

  function DeploySegments(segs: seq<string>): seq<string>
  {
    if |segs| > 0 then [segs[0]] else ["core", "home"]
  }

  function IndexSuffix(rest: seq<string>): seq<string>
  {
    if '.' in Join(rest, '/') then [] else ["index.html"]
  }

  lemma DeployIsJoin(segs: seq<string>)
    requires forall i :: 0 <= i < |segs| ==> IsSegment(segs[i])
    ensures DeployId(segs) == Join(DeploySegments(segs), '/')
  {
    if |segs| == 0 {
      assert Join(["core", "home"], '/') == "core" + "/" + Join(["home"], '/');
    }
  }

  lemma AssetIsJoin(segs: seq<string>)
    requires forall i :: 0 <= i < |segs| ==> IsSegment(segs[i])
    ensures AssetPath(segs) == Join(Rest(segs) + IndexSuffix(Rest(segs)), '/')
  {
    var rest := Rest(segs);
    JoinAppend(rest, IndexSuffix(rest));
    if |rest| > 0 {
      JoinIsPath(rest);
    } else {
      assert rest + IndexSuffix(rest) == ["index.html"];
    }
  }

  /** The key never has an empty component: no `//` anywhere, and no `/` at
      either end. */
  lemma KeyWellFormed(env: string, segs: seq<string>)
    requires IsSegment(env) && forall i :: 0 <= i < |segs| ==> IsSegment(segs[i])
    ensures WellFormedPath(env + "/" + DeployId(segs) + "/" + AssetPath(segs))
  {
    var all := KeyTail(segs);
    KeyIsJoin(segs);
    KeyParts(env, DeployId(segs), AssetPath(segs));
    SegmentIsPath(env);
    assert |all| > 0;
    JoinIsPath(all);
    ConcatPaths(env, Join(all, '/'));
  }

  /** The template `${a}/${b}/${c}` is `a`, a `/`, and the path `b/c`. */
  lemma KeyParts(a: string, b: string, c: string)
    ensures a + "/" + b + "/" + c == a + "/" + (b + "/" + c)
  {
  }

  /** Joining two non-empty lists puts one separator between them. */
  lemma {:induction false} JoinAppend(p: seq<string>, q: seq<string>)
    ensures |p| > 0 && |q| > 0 ==> Join(p + q, '/') == Join(p, '/') + "/" + Join(q, '/')
    ensures |p| == 0 ==> Join(p + q, '/') == Join(q, '/')
    ensures |q| == 0 ==> Join(p + q, '/') == Join(p, '/')
    decreases |p|
  {
    if |p| == 0 {
      assert p + q == q;
    } else if |q| == 0 {
      assert p + q == p;
    } else if |p| == 1 {
      assert (p + q)[1..] == q;
    } else {
      JoinAppend(p[1..], q);
      assert (p + q)[1..] == p[1..] + q;
    }
  }
}
