/**
 * `java.lang.String.split(regex)` with the default limit 0, for a regex that
 * is a single literal character (such as ":"): the input is cut at every
 * separator, and then trailing empty pieces are removed; an input with no
 * separator at all comes back whole, as a one-element array.
 */
module StringSplit {

  /** The position of the first `sep` in `s`, or `|s|` when there is none. */
  function SepPosition(s: string, sep: char): (i: nat)
    ensures i <= |s|
    ensures forall j :: 0 <= j < i ==> s[j] != sep
    ensures i < |s| ==> s[i] == sep
    decreases |s|
  {
    if s == [] || s[0] == sep then 0 else 1 + SepPosition(s[1..], sep)
  }

  /** The pieces joined back together with `sep` between each two. */
  function Join(pieces: seq<string>, sep: char): (s: string)
    requires |pieces| > 0
    decreases |pieces|
  {
    if |pieces| == 1 then pieces[0] else pieces[0] + [sep] + Join(pieces[1..], sep)
  }

  /** `s` cut at every `sep`; empty pieces (between adjacent separators, or at either end) are kept. */
  function Pieces(s: string, sep: char): (r: seq<string>)
    ensures |r| > 0
    decreases |s|
  {
    if s == [] then [""]
    else
      var rest := Pieces(s[1..], sep);
      if s[0] == sep then [""] + rest else [[s[0]] + rest[0]] + rest[1..]
  }

  /** The pieces put back together give the input: no character is lost or added. */
  lemma {:induction false} PiecesJoin(s: string, sep: char)
    ensures Join(Pieces(s, sep), sep) == s
    decreases |s|
  {
    if s != [] {
      var rest := Pieces(s[1..], sep);
      PiecesJoin(s[1..], sep);
      if s[0] == sep {
        assert ([""] + rest)[1..] == rest;
      } else if |rest| > 1 {
        var p := [[s[0]] + rest[0]] + rest[1..];
        assert p[1..] == rest[1..];
        assert Join(rest, sep) == rest[0] + [sep] + Join(rest[1..], sep);
        assert s == [s[0]] + s[1..];
      } else {
        assert s == [s[0]] + s[1..];
      }
    }
  }

  /** No piece contains the separator. */
  lemma {:induction false} PiecesHaveNoSep(s: string, sep: char)
    ensures forall i :: 0 <= i < |Pieces(s, sep)| ==> sep !in Pieces(s, sep)[i]
    decreases |s|
  {
    if s != [] {
      PiecesHaveNoSep(s[1..], sep);
      var rest := Pieces(s[1..], sep);
      if s[0] == sep {
        assert forall i :: 1 <= i < |Pieces(s, sep)| ==> Pieces(s, sep)[i] == rest[i - 1];
      } else {
        assert forall i :: 1 <= i < |Pieces(s, sep)| ==> Pieces(s, sep)[i] == rest[i];
      }
    }
  }

  /** The first piece is everything before the first separator. */
  lemma {:induction false} FirstPiece(s: string, sep: char)
    ensures Pieces(s, sep)[0] == s[..SepPosition(s, sep)]
    decreases |s|
  {
    if s != [] && s[0] != sep {
      FirstPiece(s[1..], sep);
      assert s[..SepPosition(s, sep)] == [s[0]] + s[1..][..SepPosition(s[1..], sep)];
    }
  }

  /** Every piece is empty exactly when every character is a separator. */
  lemma {:induction false} PiecesAllEmpty(s: string, sep: char)
    ensures (forall i :: 0 <= i < |Pieces(s, sep)| ==> Pieces(s, sep)[i] == "")
        <==> (forall j :: 0 <= j < |s| ==> s[j] == sep)
    decreases |s|
  {
    if s != [] {
      PiecesAllEmpty(s[1..], sep);
      var rest := Pieces(s[1..], sep);
      if s[0] == sep {
        var all := Pieces(s, sep);
        assert all == [""] + rest;
        assert (forall i :: 0 <= i < |all| ==> all[i] == "")
           <==> (forall i :: 0 <= i < |rest| ==> rest[i] == "") by {
          assert all[0] == "";
          assert forall i :: 1 <= i < |all| ==> all[i] == rest[i - 1];
          assert forall i :: 0 <= i < |rest| ==> rest[i] == all[i + 1];
        }
        assert (forall j :: 0 <= j < |s| ==> s[j] == sep)
           <==> (forall j :: 0 <= j < |s[1..]| ==> s[1..][j] == sep);
      } else {
        assert Pieces(s, sep)[0] != "";
      }
    }
  }

  /** The longest prefix of `pieces` that does not end in an empty piece. */
  function DropTrailingEmpty(pieces: seq<string>): (r: seq<string>)
    ensures |r| <= |pieces| && r == pieces[..|r|]
    ensures r == [] || r[|r| - 1] != ""
    ensures forall i :: |r| <= i < |pieces| ==> pieces[i] == ""
    decreases |pieces|
  {
    if pieces != [] && pieces[|pieces| - 1] == "" then DropTrailingEmpty(pieces[..|pieces| - 1])
    else pieces
  }

  /**
   * `s.split(sep)`. The result is empty exactly when `s` is non-empty and made
   * of separators only; otherwise its first element is everything before the
   * first separator.
   */
  function Split(s: string, sep: char): (r: seq<string>)
    ensures |r| == 0 <==> s != "" && forall j :: 0 <= j < |s| ==> s[j] == sep
    ensures |r| > 0 ==> r[0] == s[..SepPosition(s, sep)]
    ensures forall i :: 0 <= i < |r| ==> sep !in r[i]
  {
    if sep !in s then
      assert s == "" || s[0] != sep;
      [s]
    else
      PiecesAllEmpty(s, sep);
      FirstPiece(s, sep);
      PiecesHaveNoSep(s, sep);
      DropTrailingEmpty(Pieces(s, sep))
  }
}
