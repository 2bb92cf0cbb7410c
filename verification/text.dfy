/** Splitting text at a separator character and joining pieces back together,
    as `String.split` with a one-character pattern and `String.join` do. Every
    piece is kept, empty ones included; `String.split` also drops trailing
    empty pieces, which never arise where the model splits (the inputs are
    checked not to end in the separator first). */
module Text {

  /** The pieces of `s` between occurrences of `sep`; there is always one
      more piece than there are separators. */
  function Split(s: string, sep: char): (r: seq<string>)
    ensures |r| >= 1
    ensures forall i | 0 <= i < |r| :: sep !in r[i]
    decreases |s|
  {
    if s == [] then [[]]
    else
      var rest := Split(s[1..], sep);
      if s[0] == sep then [[]] + rest else [[s[0]] + rest[0]] + rest[1..]
  }

  /** The pieces written one after another with `sep` between each two. */
  function Join(pieces: seq<string>, sep: char): string
    requires |pieces| >= 1
    decreases |pieces|
  {
    if |pieces| == 1 then pieces[0] else pieces[0] + [sep] + Join(pieces[1..], sep)
  }

  /** Joining the pieces of a split gives back the text. */
  lemma {:induction false} JoinSplit(s: string, sep: char)
    ensures Join(Split(s, sep), sep) == s
    decreases |s|
  {
    if s != [] {
      var rest := Split(s[1..], sep);
      JoinSplit(s[1..], sep);
      if s[0] != sep {
        var r := Split(s, sep);
        assert r[1..] == rest[1..];
        if |rest| == 1 {
          assert Join(r, sep) == [s[0]] + rest[0];
        } else {
          assert Join(r, sep) == [s[0]] + rest[0] + [sep] + Join(rest[1..], sep);
        }
        assert s == [s[0]] + s[1..];
      } else {
        var r := Split(s, sep);
        assert r[1..] == rest;
        assert s == [sep] + s[1..];
      }
    }
  }

  /** Splitting pieces that were joined gives back the pieces, as long as no
      piece contains the separator. */
  lemma {:induction false} SplitJoin(pieces: seq<string>, sep: char)
    requires |pieces| >= 1
    requires forall i | 0 <= i < |pieces| :: sep !in pieces[i]
    ensures Split(Join(pieces, sep), sep) == pieces
    decreases |pieces|, |pieces[0]|
  {
    var p := pieces[0];
    if p == [] {
      if |pieces| > 1 {
        SplitJoin(pieces[1..], sep);
        assert Join(pieces, sep) == [sep] + Join(pieces[1..], sep);
        assert [p] + pieces[1..] == pieces;
      }
    } else {
      var shorter := [p[1..]] + pieces[1..];
      assert forall i | 1 <= i < |shorter| :: shorter[i] == pieces[i];
      SplitJoin(shorter, sep);
      var s := Join(pieces, sep);
      assert s == [p[0]] + Join(shorter, sep) by {
        if |pieces| == 1 {
          assert p == [p[0]] + p[1..];
        } else {
          assert shorter[1..] == pieces[1..];
          assert p == [p[0]] + p[1..];
        }
      }
      assert s[1..] == Join(shorter, sep);
      assert [p[0]] + p[1..] == p;
      assert pieces == [p] + pieces[1..];
    }
  }
}
