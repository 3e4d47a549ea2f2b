/** Python's `str.split(sep)` with a one-character separator, and `sep.join` as its inverse. */
module Lines {

  /** How often `c` occurs in `s`. */
  function Occurrences(c: char, s: string): nat {
    if s == "" then 0 else (if s[0] == c then 1 else 0) + Occurrences(c, s[1..])
  }

  /**
    `s.split(sep)`: the pieces between separators, empty pieces included, so there is one
    piece more than there are separators (`"".split(sep) == [""]`).
   */
  function Split(s: string, sep: char): (r: seq<string>)
    ensures |r| == Occurrences(sep, s) + 1
    ensures forall k :: 0 <= k < |r| ==> sep !in r[k]
    decreases |s|
  {
    if s == "" then [""]
    else if s[0] == sep then [""] + Split(s[1..], sep)
    else
      var rest := Split(s[1..], sep);
      [[s[0]] + rest[0]] + rest[1..]
  }

  /** `sep.join(pieces)`. */
  function Join(pieces: seq<string>, sep: char): string {
    if |pieces| == 0 then ""
    else if |pieces| == 1 then pieces[0]
    else pieces[0] + [sep] + Join(pieces[1..], sep)
  }

  /** Joining the pieces back together gives the original text. */
  lemma {:induction false} JoinSplit(s: string, sep: char)
    ensures Join(Split(s, sep), sep) == s
  {
    if s != "" {
      var rest := Split(s[1..], sep);
      JoinSplit(s[1..], sep);
      if s[0] == sep {
        assert ([""] + rest)[1..] == rest;
      } else {
        var r := Split(s, sep);
        if |rest| > 1 {
          assert r[1..] == rest[1..];
          assert Join(rest, sep) == rest[0] + [sep] + Join(rest[1..], sep);
        }
      }
    }
  }

  /** A separator-free piece in front extends the first piece of the split. */
  lemma {:induction false} SplitAfterPiece(u: string, w: string, sep: char)
    requires sep !in u
    ensures Split(u + w, sep) == [u + Split(w, sep)[0]] + Split(w, sep)[1..]
  {
    if u != "" {
      SplitAfterPiece(u[1..], w, sep);
      assert (u + w)[0] == u[0];
      assert (u + w)[1..] == u[1..] + w;
      assert [u[0]] + (u[1..] + Split(w, sep)[0]) == u + Split(w, sep)[0];
    } else {
      var r := Split(w, sep);
      assert u + w == w && u + r[0] == r[0];
      assert r == [r[0]] + r[1..];
    }
  }

  /** Splitting joined separator-free pieces gives the pieces back. */
  lemma {:induction false} SplitJoin(pieces: seq<string>, sep: char)
    requires |pieces| >= 1
    requires forall k :: 0 <= k < |pieces| ==> sep !in pieces[k]
    ensures Split(Join(pieces, sep), sep) == pieces
  {
    if |pieces| == 1 {
      SplitAfterPiece(pieces[0], "", sep);
      assert pieces[0] + "" == pieces[0];
    } else {
      var u, v := pieces[0], Join(pieces[1..], sep);
      SplitJoin(pieces[1..], sep);
      SplitAfterPiece(u, [sep] + v, sep);
      assert u + [sep] + v == u + ([sep] + v);
      assert ([sep] + v)[1..] == v;
      assert u + "" == u;
      assert pieces == [pieces[0]] + pieces[1..];
    }
  }

  /** A trailing separator adds one empty piece at the end. */
  lemma {:induction false} SplitTrailingSeparator(s: string, sep: char)
    ensures Split(s + [sep], sep) == Split(s, sep) + [""]
  {
    if s == "" {
      assert s + [sep] == [sep];
      var one: string := [sep];
      assert one[1..] == "";
    } else {
      SplitTrailingSeparator(s[1..], sep);
      assert (s + [sep])[0] == s[0];
      assert (s + [sep])[1..] == s[1..] + [sep];
      var rest := Split(s[1..], sep);
      if s[0] != sep {
        assert (rest + [""])[0] == rest[0];
        assert (rest + [""])[1..] == rest[1..] + [""];
      }
    }
  }
}
