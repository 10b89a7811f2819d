/** The slash-separated path helpers of `path/filepath` that the program uses
    (`Base`, `Ext`, `Join`), and the input filter on the ".bad" extension. */
module Paths {
  import opened Text

  /** Drops every trailing '/'. */
  function TrimSlashes(p: string): (q: string)
    ensures |q| <= |p| && q == p[..|q|]
    ensures q == [] || q[|q| - 1] != '/'
    ensures forall i :: |q| <= i < |p| ==> p[i] == '/'
  {
    if p != [] && p[|p| - 1] == '/' then TrimSlashes(p[..|p| - 1]) else p
  }

  /** The characters after the last '/' (all of `q` when it has none). */
  function LastElement(q: string): (e: string)
    ensures '/' !in e
    ensures |e| <= |q| && e == q[|q| - |e|..]
    ensures |e| < |q| ==> q[|q| - |e| - 1] == '/'
    ensures q != [] && q[|q| - 1] != '/' ==> e != []
  {
    if q == [] || q[|q| - 1] == '/' then [] else LastElement(q[..|q| - 1]) + [q[|q| - 1]]
  }

  /** `filepath.Base`: the last element of the path, trailing slashes ignored;
      "." for the empty path and "/" for a path of slashes only. */
  function Base(p: string): (b: string)
    ensures b != []
    ensures b == "/" || '/' !in b
  {
    if p == [] then "."
    else
      var q := TrimSlashes(p);
      if q == [] then "/" else LastElement(q)
  }

  /** A directory, a slash and a plain name have that name as their base. */
  lemma BaseOfChild(dir: string, name: string)
    requires name != [] && '/' !in name
    ensures Base(dir + "/" + name) == name
  {
    var p := dir + "/" + name;
    assert TrimSlashes(p) == p;
    LastOfChild(dir, name);
  }

  lemma {:induction false} LastOfChild(dir: string, name: string)
    requires '/' !in name
    ensures LastElement(dir + "/" + name) == name
    decreases |name|
  {
    var p := dir + "/" + name;
    if name == [] {
      assert p[|p| - 1] == '/';
    } else {
      var last := name[|name| - 1];
      assert last in name;
      assert p[..|p| - 1] == dir + "/" + name[..|name| - 1];
      LastOfChild(dir, name[..|name| - 1]);
      assert name[..|name| - 1] + [last] == name;
    }
  }

  /** A plain name is its own base. */
  lemma BaseOfName(name: string)
    requires name != [] && '/' !in name
    ensures Base(name) == name
  {
    assert TrimSlashes(name) == name by {
      assert name[|name| - 1] in name;
    }
    LastOfPlain(name);
  }

  lemma {:induction false} LastOfPlain(q: string)
    requires '/' !in q
    ensures LastElement(q) == q
  {
    if q != [] {
      assert q[|q| - 1] in q;
      assert forall c :: c in q[..|q| - 1] ==> c in q;
      LastOfPlain(q[..|q| - 1]);
    }
  }

  /** `filepath.Ext`: the suffix from the final '.' of the last element, or "". */
  function Ext(p: string): (e: string)
    ensures |e| <= |p| && e == p[|p| - |e|..]
    ensures e != [] ==> e[0] == '.' && forall i :: 1 <= i < |e| ==> e[i] != '.' && e[i] != '/'
  {
    if p == [] || p[|p| - 1] == '/' then ""
    else if p[|p| - 1] == '.' then "."
    else
      var e := Ext(p[..|p| - 1]);
      if e == "" then "" else e + [p[|p| - 1]]
  }

  /** A final '.' followed by a plain suffix gives the extension. */
  lemma {:induction false} ExtOfSuffix(p: string, ext: string)
    requires forall i :: 0 <= i < |ext| ==> ext[i] != '.' && ext[i] != '/'
    ensures Ext(p + "." + ext) == "." + ext
    decreases |ext|
  {
    var s := p + "." + ext;
    if ext == [] {
      assert s[|s| - 1] == '.';
    } else {
      var init := ext[..|ext| - 1];
      assert s[..|s| - 1] == p + "." + init;
      ExtOfSuffix(p, init);
      assert "." + init + [ext[|ext| - 1]] == "." + ext;
    }
  }

  /** The input filter of both path walkers: a file is passed on unless its
      extension is ".bad" and bad files are not kept. */
  function KeepInput(file: string, keepBad: bool): bool
  {
    keepBad || Ext(file) != ".bad"
  }

  /** Only the final extension counts: a file whose final extension is `ext`
      is dropped exactly when `ext` is "bad" and `-k` is not given, so
      "x.bad" is dropped and "x.bad.csv" is kept. */
  lemma KeepInputByExt(p: string, ext: string, keepBad: bool)
    requires forall i :: 0 <= i < |ext| ==> ext[i] != '.' && ext[i] != '/'
    ensures KeepInput(p + "." + ext, keepBad) <==> keepBad || ext != "bad"
  {
    ExtOfSuffix(p, ext);
    if ext != "bad" {
      assert ("." + ext)[1..] == ext;
    }
  }

  function NonEmpty(xs: seq<string>): (ys: seq<string>)
    ensures forall i :: 0 <= i < |ys| ==> ys[i] != []
  {
    if xs == [] then []
    else if xs[|xs| - 1] == [] then NonEmpty(xs[..|xs| - 1])
    else NonEmpty(xs[..|xs| - 1]) + [xs[|xs| - 1]]
  }

  /** `filepath.Join` without the final `Clean`: the non-empty elements joined by '/'. */
  function JoinPath(xs: seq<string>): string
  {
    Join(NonEmpty(xs), "/")
  }

  lemma {:induction false} JoinAppend(xs: seq<string>, y: string, sep: string)
    requires xs != []
    ensures Join(xs + [y], sep) == Join(xs, sep) + sep + y
  {
    if |xs| > 1 {
      assert (xs + [y])[1..] == xs[1..] + [y];
      JoinAppend(xs[1..], y, sep);
    }
  }

  /** Joining one more non-empty element puts it after a '/' (or alone). */
  lemma JoinPathAppend(xs: seq<string>, y: string)
    requires y != []
    ensures JoinPath(xs + [y]) == if JoinPath(xs) == [] then y else JoinPath(xs) + "/" + y
  {
    var zs := xs + [y];
    assert zs[..|zs| - 1] == xs;
    var ne := NonEmpty(xs);
    if ne == [] {
      assert NonEmpty(zs) == [y];
    } else {
      JoinAppend(ne, y, "/");
      assert Join(ne, "/") != [] by { assert ne[0] != []; }
    }
  }
}
