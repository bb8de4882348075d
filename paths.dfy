/**
 * The parts of `pathlib.Path` the feed's input and output code decides on:
 * the final component of a path, its suffix and its stem.
 */
module PathNames {

  /** `s.rfind(c)`: the last position of `c` in `s`, or -1. */
  function RFind(s: string, c: char): (i: int)
    ensures -1 <= i < |s|
    ensures i >= 0 ==> s[i] == c
    ensures forall j :: i < j < |s| ==> s[j] != c
  {
    if s == [] then -1
    else if s[|s| - 1] == c then |s| - 1
    else RFind(s[..|s| - 1], c)
  }

  /** The pieces glued together with '/' between them. */
  function Join(cs: seq<string>): string {
    if cs == [] then ""
    else if |cs| == 1 then cs[0]
    else Join(cs[..|cs| - 1]) + "/" + cs[|cs| - 1]
  }

  /** `p.split("/")`: the pieces between the separators, empty ones included. */
  function Split(p: string): (cs: seq<string>)
    ensures cs != []
    ensures forall k :: 0 <= k < |cs| ==> '/' !in cs[k]
    ensures Join(cs) == p
    decreases |p|
  {
    var i := RFind(p, '/');
    if i < 0 then [p]
    else
      var init := Split(p[..i]);
      JoinSnoc(init, p[i + 1..]);
      assert p == p[..i] + "/" + p[i + 1..];
      init + [p[i + 1..]]
  }

  /** Joining one more piece puts a separator before it. */
  lemma JoinSnoc(init: seq<string>, last: string)
    requires init != []
    ensures Join(init + [last]) == Join(init) + "/" + last
  {
    assert (init + [last])[..|init|] == init;
  }

  /** The pieces pathlib keeps: an empty piece (a repeated or trailing '/') and "." are dropped. */
  function Kept(cs: seq<string>): (ks: seq<string>)
    ensures forall k :: 0 <= k < |ks| ==> ks[k] in cs && ks[k] != "" && ks[k] != "."
    ensures forall c :: c in ks <==> c in cs && c != "" && c != "."
  {
    if cs == [] then []
    else
      var n := |cs| - 1;
      assert cs == cs[..n] + [cs[n]];
      Kept(cs[..n]) + (if cs[n] == "" || cs[n] == "." then [] else [cs[n]])
  }

  /** Every piece after position `k` is one pathlib drops: empty or ".". */
  predicate DroppedAfter(cs: seq<string>, k: int) {
    forall m :: 0 <= m < |cs| && k < m ==> cs[m] == "" || cs[m] == "."
  }

  /** Nothing is kept exactly when every piece is dropped. */
  lemma {:induction false} KeptNothing(cs: seq<string>)
    ensures Kept(cs) == [] <==> DroppedAfter(cs, -1)
  {
    if cs != [] {
      var n := |cs| - 1;
      var init := cs[..n];
      KeptNothing(init);
      KeptLast(init, cs[n]);
      assert cs == init + [cs[n]];
      assert forall k :: 0 <= k < n ==> init[k] == cs[k];
    }
  }

  /** The last piece kept is a piece followed only by dropped ones. */
  lemma {:induction false} KeptLastPiece(cs: seq<string>)
    requires Kept(cs) != []
    ensures exists k :: 0 <= k < |cs| && Kept(cs)[|Kept(cs)| - 1] == cs[k] && DroppedAfter(cs, k)
    decreases |cs|, 1
  {
    var n := |cs| - 1;
    assert cs == cs[..n] + [cs[n]];
    KeptLastPieceSnoc(cs[..n], cs[n]);
  }

  lemma {:induction false} KeptLastPieceSnoc(init: seq<string>, c: string)
    requires Kept(init + [c]) != []
    ensures var cs := init + [c];
      exists k :: 0 <= k < |cs| && Kept(cs)[|Kept(cs)| - 1] == cs[k] && DroppedAfter(cs, k)
    decreases |init| + 1, 0
  {
    var cs := init + [c];
    KeptLast(init, c);
    if c == "" || c == "." {
      KeptLastPiece(init);
      var k :| 0 <= k < |init| && Kept(init)[|Kept(init)| - 1] == init[k] && DroppedAfter(init, k);
      assert cs[k] == init[k];
      assert forall m :: k < m < |init| ==> cs[m] == init[m];
    } else {
      assert DroppedAfter(cs, |init|);
    }
  }

  /** The components of a path once pathlib has normalised it. */
  function Components(p: string): (cs: seq<string>)
    ensures forall k :: 0 <= k < |cs| ==> cs[k] != "" && cs[k] != "." && '/' !in cs[k]
    ensures forall c :: c in cs <==> c in Split(p) && c != "" && c != "."
  {
    Kept(Split(p))
  }

  /** The normalised path, relative form: its components joined by '/'. */
  function Normalised(p: string): string {
    Join(Components(p))
  }

  /**
   * `Path(p).name`: the text after the last '/' of the normalised path;
   * it is the last component, or empty when the path has none.
   */
  function FinalName(p: string): (name: string)
    ensures '/' !in name && name != "."
    ensures name == "" <==> Components(p) == []
    ensures Components(p) != [] ==> name == Components(p)[|Components(p)| - 1]
  {
    var q := Normalised(p);
    JoinLast(Components(p));
    q[RFind(q, '/') + 1..]
  }

  /**
   * The name is empty exactly when every piece between separators is empty
   * or "."; otherwise it is a piece followed only by such pieces.
   */
  lemma FinalNameIsLastPiece(p: string)
    ensures FinalName(p) == "" <==> DroppedAfter(Split(p), -1)
    ensures FinalName(p) != "" ==>
      exists k :: 0 <= k < |Split(p)| && FinalName(p) == Split(p)[k] && DroppedAfter(Split(p), k)
  {
    var cs := Split(p);
    assert Components(p) == Kept(cs);
    KeptNothing(cs);
    if Kept(cs) != [] {
      KeptLastPiece(cs);
    }
  }

  /** The text after the last '/' of joined pieces without separators is the last piece. */
  lemma {:induction false} JoinLast(cs: seq<string>)
    requires forall k :: 0 <= k < |cs| ==> '/' !in cs[k]
    ensures var q := Join(cs);
      q[RFind(q, '/') + 1..] == if cs == [] then "" else cs[|cs| - 1]
  {
    var q := Join(cs);
    if |cs| > 1 {
      var init := Join(cs[..|cs| - 1]);
      var last := cs[|cs| - 1];
      assert q == init + "/" + last;
      assert q[|init|] == '/';
      forall j | |init| < j < |q| ensures q[j] != '/' {
        assert q[j] == last[j - |init| - 1];
      }
      assert RFind(q, '/') == |init|;
      assert q[|init| + 1..] == last;
    } else if |cs| == 1 {
      assert q == cs[0];
      assert RFind(q, '/') == -1;
    }
  }

  /** A path without a separator is one piece. */
  lemma SplitPlain(q: string)
    requires '/' !in q
    ensures Split(q) == [q]
  {
  }

  /** A separator followed by text without one ends a path's pieces with that text. */
  lemma SplitLast(p: string, q: string)
    requires '/' !in q
    ensures Split(p + "/" + q) == Split(p) + [q]
  {
    var s := p + "/" + q;
    assert s[|p|] == '/';
    forall j | |p| < j < |s| ensures s[j] != '/' {
      assert s[j] == q[j - |p| - 1];
    }
    assert RFind(s, '/') == |p|;
    assert s[..|p|] == p && s[|p| + 1..] == q;
  }

  /** Keeping the pieces of a longer list keeps those of its prefix first. */
  lemma KeptLast(cs: seq<string>, c: string)
    ensures Kept(cs + [c]) == Kept(cs) + (if c == "" || c == "." then [] else [c])
  {
    assert (cs + [c])[..|cs|] == cs;
  }

  /** A component pathlib keeps: non-empty, not ".", without a separator. */
  predicate IsComponent(c: string) {
    c != "" && c != "." && '/' !in c
  }

  /** A trailing "." component is dropped: `Path("out.zip/.")` is `Path("out.zip")`. */
  lemma TrailingDotDropped(dir: string)
    requires IsComponent(dir)
    ensures FinalName(dir + "/.") == dir
  {
    assert Components(dir + "/.") == [dir] by {
      assert dir + "/." == dir + "/" + ".";
      SplitLast(dir, ".");
      SplitPlain(dir);
      KeptLast([], dir);
      KeptLast([dir], ".");
    }
  }

  /** Repeated and trailing separators are dropped: `Path("a//b/")` is `Path("a/b")`. */
  lemma RepeatedSeparatorsDropped(a: string, b: string)
    requires IsComponent(a) && IsComponent(b)
    ensures FinalName(a + "//" + b + "/") == b
  {
    SplitRepeated(a, b);
    KeptRepeated(a, b);
    assert Components(a + "//" + b + "/") == [a, b];
  }

  lemma SplitRepeated(a: string, b: string)
    requires '/' !in a && '/' !in b
    ensures Split(a + "//" + b + "/") == [a, "", b, ""]
  {
    SplitDoubled(a, b);
    SplitLast(a + "//" + b, "");
    assert a + "//" + b + "/" + "" == a + "//" + b + "/";
  }

  lemma SplitDoubled(a: string, b: string)
    requires '/' !in a && '/' !in b
    ensures Split(a + "//" + b) == [a, "", b]
  {
    SplitTrailing(a);
    SplitLast(a + "/", b);
    assert a + "/" + "/" + b == a + "//" + b;
  }

  lemma SplitTrailing(a: string)
    requires '/' !in a
    ensures Split(a + "/") == [a, ""]
  {
    SplitPlain(a);
    SplitLast(a, "");
    assert a + "/" + "" == a + "/";
  }

  lemma KeptRepeated(a: string, b: string)
    requires IsComponent(a) && IsComponent(b)
    ensures Kept([a, "", b, ""]) == [a, b]
  {
    KeptThree(a, b);
    KeptLast([a, "", b], "");
    assert [a, "", b] + [""] == [a, "", b, ""];
  }

  lemma KeptThree(a: string, b: string)
    requires IsComponent(a) && IsComponent(b)
    ensures Kept([a, "", b]) == [a, b]
  {
    KeptTwo(a);
    KeptLast([a, ""], b);
    assert [a, ""] + [b] == [a, "", b];
  }

  lemma KeptTwo(a: string)
    requires IsComponent(a)
    ensures Kept([a, ""]) == [a]
  {
    KeptLast([], a);
    assert [] + [a] == [a];
    KeptLast([a], "");
    assert [a] + [""] == [a, ""];
  }

  /** A path made only of "." and separators has no name. */
  lemma DotsOnly()
    ensures FinalName("./") == ""
  {
    assert Components("./") == [] by {
      assert "./" == "." + "/" + "";
      SplitLast(".", "");
      SplitPlain(".");
      KeptLast([], ".");
      KeptLast(["."], "");
    }
  }

  /** ".." is a component like any other, as pathlib keeps it: `Path("a/..").name` is "..". */
  lemma ParentKept(a: string)
    requires IsComponent(a)
    ensures FinalName(a + "/..") == ".."
  {
    assert Components(a + "/..") == [a, ".."] by {
      assert a + "/.." == a + "/" + "..";
      SplitLast(a, "..");
      SplitPlain(a);
      KeptLast([], a);
      KeptLast([a], "..");
    }
  }

  /** `name.suffix`: from the last dot on, unless that dot starts or ends the name. */
  function Suffix(name: string): string {
    var i := RFind(name, '.');
    if 0 < i < |name| - 1 then name[i..] else ""
  }

  /** `name.stem`: the name without its suffix. */
  function Stem(name: string): string {
    var i := RFind(name, '.');
    if 0 < i < |name| - 1 then name[..i] else name
  }

  /** A name is its stem followed by its suffix. */
  lemma StemThenSuffix(name: string)
    ensures Stem(name) + Suffix(name) == name
  {
  }

  /** An extension such as ".zip" or ".txt": a dot then at least one character, no other dot. */
  predicate IsExtension(ext: string) {
    |ext| >= 2 && ext[0] == '.' && '.' !in ext[1..]
  }

  /**
   * A name has suffix `ext` exactly when it ends with `ext` and has at least
   * one character before it; in that case the stem is what precedes `ext`.
   */
  lemma SuffixExactly(name: string, ext: string)
    requires IsExtension(ext)
    ensures Suffix(name) == ext <==> |name| > |ext| && name[|name| - |ext|..] == ext
    ensures Suffix(name) == ext ==> Stem(name) == name[..|name| - |ext|]
  {
    var i := RFind(name, '.');
    var k := |name| - |ext|;
    if |name| > |ext| && name[k..] == ext {
      assert name[k] == '.';
      forall j | k < j < |name| ensures name[j] != '.' {
        assert name[j] == ext[j - k];
        assert ext[j - k] in ext[1..];
      }
      assert i == k;
    }
    if Suffix(name) == ext {
      assert 0 < i < |name| - 1;
      assert name[i..] == ext;
    }
  }

  /** The file `base + ext` has stem `base` and suffix `ext` whenever `base` is non-empty. */
  lemma JoinedName(base: string, ext: string)
    requires IsExtension(ext) && base != []
    ensures Suffix(base + ext) == ext && Stem(base + ext) == base
  {
    var name := base + ext;
    assert name[|name| - |ext|..] == ext;
    assert name[..|name| - |ext|] == base;
    SuffixExactly(name, ext);
  }
}
