/** The two functions of Python's posixpath module that the validator relies on:
    `os.path.join(a, b)` and `os.path.splitext(p)`. */
module PosixPath {
  import opened Text

  /** `os.path.join(a, b)`: an absolute `b` replaces `a`; otherwise a '/' is inserted
      unless `a` is empty or already ends with one. */
  function PathJoin(a: string, b: string): string
  {
    if |b| > 0 && b[0] == '/' then b
    else if a == [] || a[|a| - 1] == '/' then a + b
    else a + "/" + b
  }

  /** Some character other than '.' lies at an index in [lo, hi). */
  predicate NonDotBetween(p: string, lo: int, hi: int)
    requires 0 <= lo && hi <= |p|
  {
    exists i :: lo <= i < hi && p[i] != '.'
  }

  /** `os.path.splitext(p)`: the extension starts at the last '.' of the last path
      component, unless everything before that '.' in the component is dots. */
  function SplitExt(p: string): (r: (string, string))
    ensures r.0 + r.1 == p
    ensures r.1 == [] || (r.1[0] == '.' && forall i :: 0 < i < |r.1| ==> r.1[i] != '.' && r.1[i] != '/')
  {
    var sep := LastIndexOf(p, '/');
    var dot := LastIndexOf(p, '.');
    if dot > sep && NonDotBetween(p, sep + 1, dot) then (p[..dot], p[dot..]) else (p, "")
  }

  /** The last path component holds a character other than '.'. */
  predicate HasStem(q: string)
  {
    exists i :: LastIndexOf(q, '/') < i < |q| && q[i] != '.'
  }

  /** Appending an extension (a '.' followed by characters that are neither '.' nor '/')
      to a name with a stem and splitting the extension off again gives back the name. */
  lemma SplitExtOfSuffix(q: string, ext: string)
    requires HasStem(q) && |ext| >= 1 && ext[0] == '.'
    requires forall i :: 0 < i < |ext| ==> ext[i] != '.' && ext[i] != '/'
    ensures SplitExt(q + ext).0 == q
  {
    var p := q + ext;
    var sep := LastIndexOf(q, '/');
    var i :| sep < i < |q| && q[i] != '.';
    forall k | |q| < k < |p|
      ensures p[k] != '.' && p[k] != '/'
    {
      assert p[k] == ext[k - |q|];
    }
    LastIndexOfUnique(p, '.', |q|);
    LastIndexOfUnique(p, '/', sep);
    assert p[i] != '.';
    assert NonDotBetween(p, sep + 1, |q|);
    assert p[..|q|] == q;
  }

  /** Joining a relative-or-absolute name with a stem onto any directory keeps the stem. */
  lemma PathJoinKeepsStem(dir: string, name: string)
    requires HasStem(name)
    ensures HasStem(PathJoin(dir, name))
  {
    var j := PathJoin(dir, name);
    if !(|name| > 0 && name[0] == '/') {
      var prefix := j[..|j| - |name|];
      assert j == prefix + name;
      var i :| LastIndexOf(name, '/') < i < |name| && name[i] != '.';
      var k := |prefix| + i;
      assert j[k] == name[i];
      assert LastIndexOf(j, '/') < k;
    }
  }

  /** Joining `name + ".shp"` is joining `name` and appending ".shp". */
  lemma PathJoinShp(dir: string, name: string)
    requires name != []
    ensures PathJoin(dir, name + ".shp") == PathJoin(dir, name) + ".shp"
  {
    assert (name + ".shp")[0] == name[0];
  }
}
