/**
 * The two `os.path` helpers the pipeline uses on POSIX systems:
 * `join` for two components and `splitext`. Both are pure string functions;
 * neither touches the filesystem or normalises the path.
 */
module PosixPath {

  const SEP := '/'
  const EXTSEP := '.'

  predicate IsAbsolute(p: string) {
    |p| > 0 && p[0] == SEP
  }

  /** `posixpath.join(a, b)` for two components. */
  function Join(a: string, b: string): string
  {
    if IsAbsolute(b) then b
    else if a == [] || a[|a| - 1] == SEP then a + b
    else a + [SEP] + b
  }

  /**
   * The joined path ends with `b`; an absolute `b` replaces `a`; otherwise
   * it starts with `a`, with one `/` in between exactly when `a` is
   * non-empty and does not already end with one (so `Join(a, "")` ends with
   * `/` whenever `a` is non-empty).
   */
  lemma JoinShape(a: string, b: string)
    ensures var r := Join(a, b);
      |b| <= |r| && r[|r| - |b|..] == b
      && (IsAbsolute(b) ==> r == b)
      && (!IsAbsolute(b) ==> |r| == |a| + |b| + (if a != [] && a[|a| - 1] != SEP then 1 else 0) && r[..|a|] == a)
      && (!IsAbsolute(b) && a != [] ==> r[|a| - 1] == SEP || (|a| < |r| && r[|a|] == SEP))
  {
  }

  /** `s.rfind(c)`: the index of the last `c` in `s`, or -1 when there is none. */
  function RFind(s: string, c: char): (i: int)
    ensures -1 <= i < |s|
    ensures i >= 0 ==> s[i] == c
    ensures forall k :: i < k < |s| ==> s[k] != c
  {
    if s == [] then -1
    else if s[|s| - 1] == c then |s| - 1
    else RFind(s[..|s| - 1], c)
  }

  /** Searching a concatenation finds the last occurrence in the second part first. */
  lemma {:induction false} RFindAppend(s: string, t: string, c: char)
    ensures RFind(s + t, c) == if c in t then |s| + RFind(t, c) else RFind(s, c)
  {
    if t != [] {
      assert (s + t)[..|s + t| - 1] == s + t[..|t| - 1];
      RFindAppend(s, t[..|t| - 1], c);
      assert c in t <==> t[|t| - 1] == c || c in t[..|t| - 1] by {
        assert t == t[..|t| - 1] + [t[|t| - 1]];
      }
    } else {
      assert s + t == s;
    }
  }

  predicate AllDots(s: string) {
    forall i :: 0 <= i < |s| ==> s[i] == EXTSEP
  }

  /**
   * `posixpath.splitext(p)`: the path cut at its last `.`, provided that dot
   * lies in the last path component and something other than dots precedes
   * it there (leading dots mark hidden files, not extensions); otherwise the
   * extension is empty. The two parts always concatenate back to `p`.
   */
  function Splitext(p: string): (r: (string, string))
    ensures r.0 + r.1 == p
    ensures r.1 == [] || (r.1[0] == EXTSEP && EXTSEP !in r.1[1..] && SEP !in r.1[1..])
  {
    var sepIndex := RFind(p, SEP);
    var dotIndex := RFind(p, EXTSEP);
    if dotIndex > sepIndex && !AllDots(p[sepIndex + 1..dotIndex]) then
      (p[..dotIndex], p[dotIndex..])
    else
      (p, [])
  }

  /**
   * A non-empty extension is preceded, within the last component, by a
   * character that is not a dot; an empty one means the last component has
   * no dot or only dots before its last dot.
   */
  lemma SplitextExtension(p: string)
    ensures var (root, ext) := Splitext(p);
      (ext != [] ==> exists k :: RFind(p, SEP) < k < |root| && root[k] != EXTSEP)
      && (ext == [] ==> RFind(p, EXTSEP) <= RFind(p, SEP) || AllDots(p[RFind(p, SEP) + 1..RFind(p, EXTSEP)]))
  {
    var sepIndex := RFind(p, SEP);
    var dotIndex := RFind(p, EXTSEP);
    if dotIndex > sepIndex && !AllDots(p[sepIndex + 1..dotIndex]) {
      var j :| 0 <= j < dotIndex - sepIndex - 1 && p[sepIndex + 1..dotIndex][j] != EXTSEP;
      assert Splitext(p).0[sepIndex + 1 + j] != EXTSEP;
    }
  }

  /** The extension of a path whose last component is `stem + ext` (the stem not all dots). */
  lemma SplitextAt(p: string, x: string, stem: string, ext: string)
    requires p == x + stem + ext
    requires SEP !in stem && SEP !in ext
    requires |ext| > 0 && ext[0] == EXTSEP && EXTSEP !in ext[1..] && !AllDots(stem)
    ensures Splitext(p).1 == ext
  {
    var name := stem + ext;
    var sepIndex := RFind(p, SEP);
    var dotIndex := RFind(p, EXTSEP);
    assert dotIndex == |x| + |stem| by {
      assert p == (x + stem) + ext;
      RFindAppend(x + stem, ext, EXTSEP);
      assert ext == [EXTSEP] + ext[1..];
      RFindAppend([EXTSEP], ext[1..], EXTSEP);
    }
    assert sepIndex < |x| by {
      assert p == x + name;
      assert SEP !in name;
      RFindAppend(x, name, SEP);
    }
    assert !AllDots(p[sepIndex + 1..dotIndex]) by {
      var k :| 0 <= k < |stem| && stem[k] != EXTSEP;
      assert p[|x| + k] == stem[k];
      assert p[sepIndex + 1..dotIndex][|x| - sepIndex - 1 + k] == stem[k];
    }
    assert p[dotIndex..] == ext;
  }

  /** Whatever the directory, the file `index.html` inside it has extension `.html`. */
  lemma SplitextJoinIndex(dir: string)
    ensures Splitext(Join(dir, "index.html")).1 == ".html"
  {
    var p := Join(dir, "index.html");
    JoinShape(dir, "index.html");
    var x := p[..|p| - 10];
    assert p == x + p[|p| - 10..];
    var stem, ext := "index", ".html";
    assert "index.html" == stem + ext;
    assert p == x + stem + ext;
    assert stem[0] != EXTSEP;
    assert ext[1..] == "html";
    SplitextAt(p, x, stem, ext);
  }

  /** A leading dot is not an extension: `splitext(dir + "/.profile")` has none. */
  lemma {:induction false} SplitextLeadingDot(dir: string, rest: string)
    requires SEP !in rest && EXTSEP !in rest
    ensures Splitext(dir + [SEP, EXTSEP] + rest).1 == ""
  {
    var p := dir + [SEP, EXTSEP] + rest;
    assert RFind(p, SEP) == |dir| by {
      assert p == (dir + [SEP]) + ([EXTSEP] + rest);
      RFindAppend(dir + [SEP], [EXTSEP] + rest, SEP);
      RFindAppend(dir, [SEP], SEP);
    }
    assert RFind(p, EXTSEP) == |dir| + 1 by {
      assert p == (dir + [SEP, EXTSEP]) + rest;
      RFindAppend(dir + [SEP, EXTSEP], rest, EXTSEP);
      assert dir + [SEP, EXTSEP] == (dir + [SEP]) + [EXTSEP];
      RFindAppend(dir + [SEP], [EXTSEP], EXTSEP);
    }
    assert AllDots(p[|dir| + 1..|dir| + 1]);
  }
}
