/**
 The extension filter of the combiner: turning the command-line extension
 tokens into a set of keys (`normalizeExtensions`) and deciding whether a
 path is included (`shouldPrintFile`).
 */
module Extensions {
  import opened Ascii
  import opened FilePath

  /** The filter built from the extension tokens. `AcceptAll` is the nil map
      returned when no token is given; `Keys` is a non-nil map, every value of
      which is `true`, so only its key set matters. */
  datatype Filter = AcceptAll | Keys(keys: set<string>)

  /** A normalised extension key: a leading dot and no upper-case letter. */
  predicate IsKey(k: string) {
    |k| > 0 && k[0] == '.' && IsLower(k)
  }

  /** Every key of the filter is a normalised key. */
  predicate WellFormed(f: Filter) {
    f.Keys? ==> forall k :: k in f.keys ==> IsKey(k)
  }

  /** The token with a dot prepended unless it already starts with one. */
  function Dotted(t: string): string {
    if HasPrefix(t, ".") then t else "." + t
  }

  /** One token's key: dotted, then lower-cased. */
  function NormalizeToken(t: string): (k: string)
    ensures IsKey(k)
    ensures |k| == |Dotted(t)|
  {
    ToLowerShape(Dotted(t));
    ToLower(Dotted(t))
  }

  /** The keys of a token list, inserted one token at a time as the loop of
      `normalizeExtensions` does. */
  function KeySet(tokens: seq<string>): (keys: set<string>)
    ensures keys == set t | t in tokens :: NormalizeToken(t)
    ensures forall k :: k in keys ==> IsKey(k)
    ensures |keys| <= |tokens|
  {
    if tokens == [] then {}
    else
      var init := tokens[..|tokens| - 1];
      var last := tokens[|tokens| - 1];
      KeysSnoc(tokens, init, last);
      KeySet(init) + {NormalizeToken(last)}
  }

  /** The keys of a token list are the keys of all but its last token plus
      the last token's key. */
  lemma KeysSnoc(tokens: seq<string>, init: seq<string>, last: string)
    requires tokens == init + [last]
    ensures (set t | t in tokens :: NormalizeToken(t)) ==
      (set t | t in init :: NormalizeToken(t)) + {NormalizeToken(last)}
  {
  }

  /** The filter for a list of extension tokens: no token accepts every file,
      otherwise the set of the tokens' keys. */
  function NormalizeExtensions(tokens: seq<string>): (f: Filter)
    ensures f.AcceptAll? <==> |tokens| == 0
    ensures f.Keys? ==> f.keys == set t | t in tokens :: NormalizeToken(t)
    ensures f.Keys? ==> 0 < |f.keys| <= |tokens|
    ensures WellFormed(f)
  {
    if |tokens| == 0 then AcceptAll
    else
      assert NormalizeToken(tokens[0]) in KeySet(tokens);
      Keys(KeySet(tokens))
  }

  /** Whether a path passes the filter. The nil filter passes every path; a
      key filter passes a path exactly when the final path element has a
      last dot and the lower-cased suffix from that dot is a key. */
  function ShouldPrintFile(path: string, f: Filter): (r: bool)
    ensures f.AcceptAll? ==> r
    ensures f.Keys? && WellFormed(f) ==>
      (r <==> exists i :: LastDotAt(path, i) && ToLower(path[i..]) in f.keys)
  {
    match f
    case AcceptAll => true
    case Keys(keys) =>
      KeyExtByLastDot(path, keys);
      ToLower(Ext(path)) in keys
  }

  /** Normalisation leaves a token unchanged exactly when the token is
      already a key; in particular it is idempotent. */
  lemma NormalizeFixedPoints(t: string)
    ensures NormalizeToken(t) == t <==> IsKey(t)
    ensures NormalizeToken(NormalizeToken(t)) == NormalizeToken(t)
  {
    if IsKey(t) {
      assert Dotted(t) == t;
      ToLowerFixedPoints(t);
    }
    var k := NormalizeToken(t);
    assert Dotted(k) == k;
    ToLowerFixedPoints(k);
  }

  /** A token without a leading dot and the same token with one prepended
      give the same key. */
  lemma NormalizeIgnoresDot(t: string)
    requires !HasPrefix(t, ".")
    ensures NormalizeToken("." + t) == NormalizeToken(t)
  {
    assert HasPrefix("." + t, ".");
  }

  /** Tokens that agree up to letter case give the same key. */
  lemma NormalizeIgnoresCase(t: string, u: string)
    requires ToLower(t) == ToLower(u)
    ensures NormalizeToken(t) == NormalizeToken(u)
  {
    ToLowerShape(t);
    ToLowerShape(u);
    assert HasPrefix(t, ".") <==> HasPrefix(u, ".") by {
      if |t| > 0 {
        assert ToLower(t)[0] == LowerChar(t[0]) && ToLower(u)[0] == LowerChar(u[0]);
      }
    }
    if !HasPrefix(t, ".") {
      ToLowerAppend(".", t);
      ToLowerAppend(".", u);
    }
  }

  /** The four spellings of the Go extension all select the same key. */
  lemma NormalizeExamples()
    ensures NormalizeToken("go") == ".go"
    ensures NormalizeToken(".go") == ".go"
    ensures NormalizeToken("GO") == ".go"
    ensures NormalizeToken(".Go") == ".go"
  {
    assert "go"[0] == 'g' && "GO"[0] == 'G';
    assert HasPrefix(".go", ".") && HasPrefix(".Go", ".");
    assert ToLower(".go") == ".go";
    assert ToLower(".GO") == ".go";
    assert ToLower(".Go") == ".go";
  }

  /** With no extension tokens the filter is the accept-all filter and every
      path passes it. */
  lemma NoTokensAcceptAll(tokens: seq<string>, path: string)
    requires |tokens| == 0
    ensures NormalizeExtensions(tokens) == AcceptAll
    ensures ShouldPrintFile(path, NormalizeExtensions(tokens))
  {
  }

  /** End to end: a path is included exactly when no token was given or some
      token normalises to the path's lower-cased extension. */
  lemma ShouldPrintIff(tokens: seq<string>, path: string)
    ensures ShouldPrintFile(path, NormalizeExtensions(tokens)) <==>
      |tokens| == 0 || exists t :: t in tokens && NormalizeToken(t) == ToLower(Ext(path))
  {
  }

  /** A path whose final element holds no dot has the empty extension, which
      is never a key, so no well-formed key filter includes it. */
  lemma NoDotNeverMatches(path: string, f: Filter)
    requires f.Keys? && WellFormed(f)
    requires NoDotInLastElement(path)
    ensures !ShouldPrintFile(path, f)
  {
    var e := Ext(path);
    assert e == "" by {
      ExtEmptyIff(path);
    }
    assert ToLower(e) == "";
  }

  /** A set of well-formed keys holds the path's lower-cased extension
      exactly when the final path element has a last dot and the lower-cased
      suffix from that dot is a key. */
  lemma KeyExtByLastDot(path: string, keys: set<string>)
    ensures WellFormed(Keys(keys)) ==>
      (ToLower(Ext(path)) in keys <==>
        exists i :: LastDotAt(path, i) && ToLower(path[i..]) in keys)
  {
    if WellFormed(Keys(keys)) && ToLower(Ext(path)) in keys {
      var i := LastDotOfKeyExt(path, keys);
    }
    if exists i :: LastDotAt(path, i) && ToLower(path[i..]) in keys {
      var i :| LastDotAt(path, i) && ToLower(path[i..]) in keys;
      ExtLastDot(path, i);
    }
  }

  /** An extension whose lower-cased form is a key starts at the last dot of
      the final path element. */
  lemma LastDotOfKeyExt(path: string, keys: set<string>) returns (i: int)
    requires forall k :: k in keys ==> IsKey(k)
    requires ToLower(Ext(path)) in keys
    ensures LastDotAt(path, i) && path[i..] == Ext(path)
  {
    var r := Ext(path);
    assert r != "" by {
      assert ToLower(r) in keys;
    }
    i := |path| - |r|;
    assert path[i] == '.' && path[i..] == r;
    forall j | i < j < |path|
      ensures path[j] != '.' && path[j] != Separator
    {
      assert path[j] == r[j - i];
    }
  }

  /** The filter ignores the letter case of the path's extension: a path and
      its lower-cased form are included or excluded together. */
  lemma ShouldPrintIgnoresPathCase(path: string, f: Filter)
    ensures ShouldPrintFile(ToLower(path), f) == ShouldPrintFile(path, f)
  {
    ExtToLower(path);
    ToLowerIdempotent(Ext(path));
  }
}
