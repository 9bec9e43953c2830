/**
 * Output-name derivation shared by the scheduler and the GUI:
 * `extend_file_name` splits the input name on '.', drops the last piece
 * when there is more than one, appends the piece "NEW", joins with '.'
 * and appends ".avi".
 */
module FileNames {
  import opened Wrappers
  import opened PyString

  /** Position of the last occurrence of `c` in `s`. */
  function LastIndexOf(s: string, c: char): (r: Option<nat>)
    ensures r.None? <==> c !in s
    ensures r.Some? ==> r.value < |s| && s[r.value] == c && c !in s[r.value + 1..]
    decreases |s|
  {
    if s == [] then None
    else if s[|s| - 1] == c then Some(|s| - 1)
    else
      var r := LastIndexOf(s[..|s| - 1], c);
      assert s == s[..|s| - 1] + [s[|s| - 1]];
      if r.Some? then
        assert s[r.value + 1..] == s[..|s| - 1][r.value + 1..] + [s[|s| - 1]];
        r
      else r
  }

  /** The part of `name` before its last '.', or all of it when it has none. */
  function Stem(name: string): string
  {
    match LastIndexOf(name, '.')
    case None => name
    case Some(k) => name[..k]
  }

  /**
   * The converted file's name: everything after the last '.' is replaced
   * by "NEW" and ".avi" is appended; a name with no '.' gets ".NEW.avi".
   */
  function ExtendFileName(name: string): string
  {
    var elements := Split(name, ".");
    var newName :=
      if |elements| > 1 then Join(".", elements[..|elements| - 1] + ["NEW"])
      else Join(".", elements + ["NEW"]);
    newName + ".avi"
  }

  /**
   * The rewrite keeps the name up to its last '.', or all of a name without
   * one, and always ends in ".NEW.avi".
   */
  lemma ExtendFileNameKeepsStem(name: string)
    ensures ExtendFileName(name) == Stem(name) + ".NEW.avi"
    ensures |ExtendFileName(name)| >= |".NEW.avi"|
    ensures ExtendFileName(name)[|ExtendFileName(name)| - |".NEW.avi"|..] == ".NEW.avi"
  {
    ExtendedNameIsStem(name);
    var stem := Stem(name);
    assert ExtendFileName(name) == (stem + ".NEW") + ".avi";
    assert (stem + ".NEW") + ".avi" == stem + ".NEW.avi";
  }

  lemma ExtendedNameIsStem(name: string)
    ensures var elements := Split(name, ".");
            (if |elements| > 1 then Join(".", elements[..|elements| - 1] + ["NEW"])
             else Join(".", elements + ["NEW"])) == Stem(name) + ".NEW"
  {
    if |Split(name, ".")| > 1 {
      SeveralPieces(name);
    } else {
      OnePiece(name);
    }
  }

  lemma SeveralPieces(name: string)
    requires |Split(name, ".")| > 1
    ensures var elements := Split(name, ".");
            Join(".", elements[..|elements| - 1] + ["NEW"]) == Stem(name) + ".NEW"
  {
    var elements := Split(name, ".");
    var front := elements[..|elements| - 1];
    StemIsFront(name);
    JoinSnoc(".", front, "NEW");
    assert "." + "NEW" == ".NEW";
  }

  /** With more than one piece, the stem is the pieces but the last, joined again. */
  lemma StemIsFront(name: string)
    requires |Split(name, ".")| > 1
    ensures var elements := Split(name, ".");
            Stem(name) == Join(".", elements[..|elements| - 1])
  {
    var elements := Split(name, ".");
    var n := |elements|;
    var front := elements[..n - 1];
    var last := elements[n - 1];
    assert elements == front + [last];
    SplitThenJoin(name, ".");
    JoinSnoc(".", front, last);
    SplitPiecesFree(name, ".", n - 1);
    NoDotWhenNotOccurs(last);
    StemOfJoined(name, front, last);
  }

  /** The stem of `front` joined with '.' and a dot-free `last` is the joined `front`. */
  lemma StemOfJoined(name: string, front: seq<string>, last: string)
    requires '.' !in last
    requires name == Join(".", front) + "." + last
    ensures Stem(name) == Join(".", front)
  {
    LastDotAt(Join(".", front), last);
    assert Stem(name) == name[..|Join(".", front)|];
  }

  lemma OnePiece(name: string)
    requires |Split(name, ".")| == 1
    ensures Join(".", Split(name, ".") + ["NEW"]) == Stem(name) + ".NEW"
  {
    var elements := Split(name, ".");
    SplitThenJoin(name, ".");
    assert elements == [name];
    JoinSnoc(".", elements, "NEW");
    SinglePieceHasNoDot(name);
    assert name + "." + "NEW" == name + ".NEW";
  }

  /** For a one-character pattern, not occurring is not being an element. */
  lemma {:induction false} NoDotWhenNotOccurs(s: string)
    requires !Occurs(s, ".")
    ensures '.' !in s
    decreases |s|
  {
    if s != [] {
      assert s[..1] == [s[0]];
      NoDotWhenNotOccurs(s[1..]);
      assert s == [s[0]] + s[1..];
    }
  }

  /** A name that splits into a single piece has no '.'. */
  lemma {:induction false} SinglePieceHasNoDot(s: string)
    requires |Split(s, ".")| == 1
    ensures '.' !in s
    decreases |s|
  {
    if s != [] {
      assert s[..1] == [s[0]];
      assert s[0] != '.';
      SinglePieceHasNoDot(s[1..]);
      assert s == [s[0]] + s[1..];
    }
  }

  /** In `a + "." + b` with no '.' in `b`, the last '.' is the one after `a`. */
  lemma LastDotAt(a: string, b: string)
    requires '.' !in b
    ensures LastIndexOf(a + "." + b, '.') == Some(|a|)
  {
    var s := a + "." + b;
    assert s[|a|] == '.';
    assert s[|a| + 1..] == b;
  }

  /** "movie.mkv" becomes "movie.NEW.avi": only the text after the last '.' is dropped. */
  lemma ExtendFileNameReplacesExtension(front: string, ext: string)
    requires '.' !in ext
    ensures ExtendFileName(front + "." + ext) == front + ".NEW.avi"
  {
    var name := front + "." + ext;
    ExtendFileNameKeepsStem(name);
    LastDotAt(front, ext);
    assert Stem(name) == front;
  }

  /** "README" becomes "README.NEW.avi": a name without a '.' is kept whole. */
  lemma ExtendFileNameKeepsPlainName(name: string)
    requires '.' !in name
    ensures ExtendFileName(name) == name + ".NEW.avi"
  {
    ExtendFileNameKeepsStem(name);
  }
}
