/** Splitting a comma-separated host list, for every list: what the pieces are and what is made of them. */
module ListPieces {
  import opened ClusetSpec
  import opened ClusetTheorems
  import opened Text

  /** The pieces between the commas outside brackets: no piece has such a comma, and the brackets of all but the last close. */
  ghost predicate ArePieces(pieces: seq<string>) {
    && pieces != [] && (forall i :: 0 <= i < |pieces| ==> NoCut(pieces[i], 0))
    && forall i :: 0 <= i < |pieces| - 1 ==> Depth(pieces[i], 0) == 0
  }

  /** The pieces without the spaces around them, and without those that are nothing but spaces. */
  function Trimmed(pieces: seq<string>): seq<string> {
    if pieces == [] then []
    else if TrimSpace(pieces[0]) == "" then Trimmed(pieces[1..])
    else [TrimSpace(pieces[0])] + Trimmed(pieces[1..])
  }

  lemma PiecesTail(pieces: seq<string>)
    requires ArePieces(pieces) && |pieces| > 1
    ensures ArePieces(pieces[1..]) && NoCut(pieces[0], 0) && Depth(pieces[0], 0) == 0
  {
    hide NoCut, Depth;
  }

  lemma FirstPiece(pieces: seq<string>)
    requires ArePieces(pieces)
    ensures pieces != [] && NoCut(pieces[0], 0)
  {
    hide NoCut, Depth;
  }

  /** Any list given by its pieces is split into them, trimmed. */
  lemma {:induction false} SplitIntoPieces(pieces: seq<string>)
    requires ArePieces(pieces)
    ensures SplitList(Join(pieces, ",")) == Trimmed(pieces)
  {
    hide NoCut, Depth, TrimSpace, ArePieces;
    FirstPiece(pieces);
    var s := pieces[0];
    assert "" + s == s;
    if |pieces| == 1 {
      assert s + "" == s;
      SplitSkips(s, "", 0, "");
      LastEmitted(s, Depth(s, 0));
      assert pieces[1..] == [];
    } else {
      var rest := Join(pieces[1..], ",");
      PiecesTail(pieces);
      SplitIntoPieces(pieces[1..]);
      SplitSkips(s, "," + rest, 0, "");
      assert s + ("," + rest) == s + "," + rest;
      assert ("," + rest)[1..] == rest;
    }
  }

  lemma LastEmitted(s: string, d: nat)
    ensures SplitFrom("", d, s) == if TrimSpace(s) == "" then [] else [TrimSpace(s)]
  {}

  /** Every list has pieces. */
  lemma {:induction false} PiecesExist(list: string, done: string)
    requires NoCut(done, 0)
    ensures exists pieces :: ArePieces(pieces) && Join(pieces, ",") == done + list
    decreases |list|
  {
    hide NoCut, Depth;
    if list == "" {
      assert done + list == done && ArePieces([done]) && Join([done], ",") == done;
    } else if list[0] == ',' && Depth(done, 0) == 0 {
      NoCutNothing();
      PiecesExist(list[1..], "");
      var pieces :| ArePieces(pieces) && Join(pieces, ",") == "" + list[1..];
      PiecesCons(done, pieces);
      assert done + "," + list[1..] == done + list;
      assert "" + list[1..] == list[1..];
    } else {
      NoCutNext(done, list[0]);
      PiecesExist(list[1..], done + [list[0]]);
      assert done + [list[0]] + list[1..] == done + list;
    }
  }

  lemma NoCutNothing()
    ensures NoCut("", 0)
  {}

  lemma PiecesCons(s: string, pieces: seq<string>)
    requires NoCut(s, 0) && Depth(s, 0) == 0 && ArePieces(pieces)
    ensures ArePieces([s] + pieces) && Join([s] + pieces, ",") == s + "," + Join(pieces, ",")
  {
    hide NoCut, Depth;
    assert ([s] + pieces)[1..] == pieces;
  }

  lemma NoCutNext(done: string, c: char)
    requires NoCut(done, 0) && !(c == ',' && Depth(done, 0) == 0)
    ensures NoCut(done + [c], 0)
  {
    hide Depth;
    NoCutConcat(done, [c], 0);
  }

  /** For every list: cut at the commas outside brackets, trim the pieces, drop the empty ones. */
  lemma SplitEveryList(list: string)
    ensures exists pieces :: ArePieces(pieces) && Join(pieces, ",") == list && SplitList(list) == Trimmed(pieces)
  {
    hide ArePieces, Join, SplitList, Trimmed;
    NoCutNothing();
    PiecesExist(list, "");
    assert "" + list == list;
    var pieces :| ArePieces(pieces) && Join(pieces, ",") == list;
    SplitIntoPieces(pieces);
  }
}
