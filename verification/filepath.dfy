/**
 The model of Go's `filepath.Ext` on `/`-separated paths: the extension is
 the suffix of the path that starts at the last `.` of the final path
 element, or the empty string when that element has no `.`.
 */
module FilePath {
  import opened Ascii

  const Separator: char := '/'

  /** Every `.` of `path` is followed, somewhere later, by a separator: the
      final path element holds no dot. */
  predicate NoDotInLastElement(path: string) {
    forall i :: 0 <= i < |path| && path[i] == '.' ==>
      exists j :: i < j < |path| && path[j] == Separator
  }

  /** Position `i` holds a dot of the final path element and no dot or
      separator follows it. */
  predicate LastDotAt(path: string, i: int) {
    && 0 <= i < |path|
    && path[i] == '.'
    && forall j :: i < j < |path| ==> path[j] != '.' && path[j] != Separator
  }

  /** The extension of `path`. Scans from the end of the path: a separator
      stops the scan with no extension, the first `.` met starts it. */
  function Ext(path: string): (r: string)
    ensures |r| <= |path|
    ensures r == path[|path| - |r|..]
    ensures r != [] ==> r[0] == '.'
    ensures forall i :: 1 <= i < |r| ==> r[i] != '.' && r[i] != Separator
  {
    if |path| == 0 then ""
    else
      var c := path[|path| - 1];
      if c == Separator then ""
      else if c == '.' then "."
      else
        var e := Ext(path[..|path| - 1]);
        if e == "" then "" else e + [c]
  }

  /** The extension is empty exactly when the final path element has no
      dot. */
  lemma {:induction false} ExtEmptyIff(path: string)
    ensures Ext(path) == "" <==> NoDotInLastElement(path)
    decreases |path|
  {
    if |path| > 0 {
      var n := |path| - 1;
      var q := path[..n];
      var c := path[n];
      assert path == q + [c];
      ExtSnoc(q, c);
      NoDotSnoc(q, c);
      ExtEmptyIff(q);
    }
  }

  /** Extending a path by one character: a separator starts a new, dotless
      final element, a dot puts a dot in it, any other character keeps it as
      it was. */
  lemma NoDotSnoc(q: string, c: char)
    ensures NoDotInLastElement(q + [c]) <==>
      c == Separator || (c != '.' && NoDotInLastElement(q))
  {
    var p := q + [c];
    var n := |q|;
    assert p[n] == c;
    if c == Separator {
      forall i | 0 <= i < |p| && p[i] == '.'
        ensures exists j :: i < j < |p| && p[j] == Separator
      {
        assert p[n] == Separator;
      }
    } else if c == '.' {
      assert !NoDotInLastElement(p) by {
        assert p[n] == '.';
      }
    } else if NoDotInLastElement(q) {
      forall i | 0 <= i < |p| && p[i] == '.'
        ensures exists j :: i < j < |p| && p[j] == Separator
      {
        assert q[i] == '.';
        var j :| i < j < |q| && q[j] == Separator;
        assert p[j] == Separator;
      }
    } else {
      var i :| 0 <= i < |q| && q[i] == '.' &&
        !(exists j :: i < j < |q| && q[j] == Separator);
      assert p[i] == '.';
      forall j | i < j < |p|
        ensures p[j] != Separator
      {
        if j < n {
          assert p[j] == q[j];
        }
      }
    }
  }

  /** When position `i` holds the last dot of the path and no separator
      follows it, the extension is the suffix of the path from `i`. */
  lemma ExtLastDot(path: string, i: nat)
    requires LastDotAt(path, i)
    ensures Ext(path) == path[i..]
  {
    var r := Ext(path);
    ExtEmptyIff(path);
    assert !NoDotInLastElement(path) by {
      assert path[i] == '.';
    }
    var k := |path| - |r|;
    assert r[0] == '.' && path[k] == '.';
    assert k == i;
  }

  /** The extension of a path extended by one character. */
  lemma ExtSnoc(q: string, c: char)
    ensures Ext(q + [c]) ==
      if c == Separator then ""
      else if c == '.' then "."
      else if Ext(q) == "" then ""
      else Ext(q) + [c]
  {
    assert (q + [c])[..|q|] == q;
  }

  /** Lower-casing a path lower-cases its extension and nothing more: the
      separator and the dot are not letters, so the scan stops at the same
      place. */
  lemma {:induction false} ExtToLower(path: string)
    ensures Ext(ToLower(path)) == ToLower(Ext(path))
    decreases |path|
  {
    if |path| == 0 {
      assert ToLower(path) == "";
    } else {
      var n := |path| - 1;
      assert path == path[..n] + [path[n]];
      ExtToLower(path[..n]);
      ExtToLowerStep(path[..n], path[n]);
    }
  }

  /** One step of `ExtToLower`: extending a path by a character keeps the
      property. */
  lemma ExtToLowerStep(q: string, c: char)
    requires Ext(ToLower(q)) == ToLower(Ext(q))
    ensures Ext(ToLower(q + [c])) == ToLower(Ext(q + [c]))
  {
    var lc := LowerChar(c);
    ToLowerSnoc(q, c);
    ExtSnoc(q, c);
    ExtSnoc(ToLower(q), lc);
    if c == Separator {
      assert ToLower("") == "";
    } else if c == '.' {
      ToLowerSnoc("", '.');
    } else {
      ExtToLowerLetter(q, c);
    }
  }

  /** The case of `ExtToLowerStep` where the new character is neither a
      separator nor a dot. */
  lemma ExtToLowerLetter(q: string, c: char)
    requires Ext(ToLower(q)) == ToLower(Ext(q))
    requires c != Separator && c != '.'
    ensures Ext(ToLower(q) + [LowerChar(c)]) == ToLower(Ext(q + [c]))
  {
    var e := Ext(q);
    ExtSnoc(q, c);
    ExtSnoc(ToLower(q), LowerChar(c));
    assert |ToLower(e)| == |e|;
    if e != "" {
      ToLowerSnoc(e, c);
    }
  }
}
