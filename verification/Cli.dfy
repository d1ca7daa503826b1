/** The two command-line tokenisers of `main.go`: the `--files` value becomes a
    list of file names and the `--loops` value a list of loop counts. */
module Cli {
  import opened Failures
  import opened Strings
  import opened Decimal

  /** `parseFiles`: the empty string is refused; anything else is split on
      commas, keeping empty pieces. */
  function ParseFiles(s: string): (r: Result<seq<string>>)
    ensures r.Err? <==> s == ""
    ensures r.Err? ==> r.error == NoInputFiles
    ensures r.Ok? ==> |r.value| == Count(s, ',') + 1
    ensures r.Ok? ==> Join(r.value, ',') == s
    ensures r.Ok? ==> forall i :: 0 <= i < |r.value| ==> ',' !in r.value[i]
  {
    if s == "" then Err(NoInputFiles)
    else
      JoinSplit(s, ',');
      Ok(Split(s, ','))
  }

  /** The loop of `parseLoops`: each piece is read with `Atoi`, in order, and
      the first piece that does not read aborts with that piece in the error. */
  function ParsePieces(pieces: seq<string>): (r: Result<seq<int>>)
    ensures r.Ok? <==> forall i :: 0 <= i < |pieces| ==> Atoi(pieces[i]).Some?
    ensures r.Ok? ==> |r.value| == |pieces|
    ensures r.Ok? ==> forall i :: 0 <= i < |pieces| ==> Atoi(pieces[i]) == Some(r.value[i])
    ensures r.Err? ==> exists i :: 0 <= i < |pieces| && FirstBad(pieces, i) && r.error == BadLoopCount(pieces[i])
  {
    if |pieces| == 0 then Ok([])
    else match Atoi(pieces[0])
      case None =>
        assert FirstBad(pieces, 0);
        Err(BadLoopCount(pieces[0]))
      case Some(v) =>
        match ParsePieces(pieces[1..])
        case Err(e) =>
          assert exists i :: 0 <= i < |pieces| && FirstBad(pieces, i) && e == BadLoopCount(pieces[i]) by {
            var j :| 0 <= j < |pieces| - 1 && FirstBad(pieces[1..], j) && e == BadLoopCount(pieces[1..][j]);
            assert FirstBad(pieces, j + 1);
          }
          Err(e)
        case Ok(vs) => Ok([v] + vs)
  }

  /** Piece `i` is the first one `Atoi` refuses. */
  ghost predicate FirstBad(pieces: seq<string>, i: int)
    requires 0 <= i < |pieces|
  {
    && Atoi(pieces[i]).None?
    && forall j :: 0 <= j < i ==> Atoi(pieces[j]).Some?
  }

  /** `parseLoops`: the empty string means "no loop counts"; anything else is
      split on commas and every piece must be a decimal integer. */
  function ParseLoops(s: string): (r: Result<seq<int>>)
    ensures s == "" ==> r == Ok([])
    ensures s != "" ==> (r.Ok? <==> forall piece :: piece in Split(s, ',') ==> Atoi(piece).Some?)
    ensures s != "" && r.Ok? ==> |r.value| == Count(s, ',') + 1
    ensures s != "" && r.Ok? ==> forall i :: 0 <= i < |r.value| ==> Atoi(Split(s, ',')[i]) == Some(r.value[i])
    ensures r.Err? ==> exists i :: 0 <= i < |Split(s, ',')| && FirstBad(Split(s, ','), i) && r.error == BadLoopCount(Split(s, ',')[i])
  {
    if s == "" then Ok([])
    else
      var pieces := Split(s, ',');
      var r := ParsePieces(pieces);
      assert r.Ok? ==> forall piece :: piece in pieces ==> Atoi(piece).Some?;
      r
  }

  /** The canonical renderings of a list of integers. */
  function Render(xs: seq<int>): (pieces: seq<string>)
    ensures |pieces| == |xs|
    ensures forall i :: 0 <= i < |xs| ==> pieces[i] == Show(xs[i])
  {
    if |xs| == 0 then [] else [Show(xs[0])] + Render(xs[1..])
  }

  /** Reading the renderings of in-range integers gives back the integers. */
  lemma {:induction false} ParsePiecesRender(xs: seq<int>)
    requires forall i :: 0 <= i < |xs| ==> MinInt <= xs[i] <= MaxInt
    ensures ParsePieces(Render(xs)) == Ok(xs)
  {
    if |xs| > 0 {
      var pieces := Render(xs);
      assert pieces[0] == Show(xs[0]) && pieces[1..] == Render(xs[1..]);
      AtoiShow(xs[0]);
      ParsePiecesRender(xs[1..]);
      assert ParsePieces(pieces[1..]) == Ok(xs[1..]);
      assert ParsePieces(pieces) == Ok([xs[0]] + xs[1..]);
      assert [xs[0]] + xs[1..] == xs;
    }
  }

  /** Round trip: loop counts that fit Go's `int`, written canonically and
      joined with commas, are read back as the same list. */
  lemma ParseLoopsRoundTrip(xs: seq<int>)
    requires forall i :: 0 <= i < |xs| ==> MinInt <= xs[i] <= MaxInt
    ensures ParseLoops(Join(Render(xs), ',')) == Ok(xs)
  {
    var pieces := Render(xs);
    if |xs| > 0 {
      forall i | 0 <= i < |pieces| ensures ',' !in pieces[i] {
        ShowHasNoComma(xs[i]);
      }
      JoinNonEmpty(pieces, ',');
      SplitJoin(pieces, ',');
      ParsePiecesRender(xs);
    }
  }

  /** Empty pieces are kept, so a doubled comma yields an empty file name. */
  lemma ParseFilesKeepsEmptyPieces()
    ensures ParseFiles("a,,b") == Ok(["a", "", "b"])
  {
    assert "a,,b" == "a" + [','] + ",b" && ",b" == "" + [','] + "b";
    SplitAtSeparator("a", ',', ",b");
    SplitAtSeparator("", ',', "b");
    SplitWithoutSeparator("b", ',');
    assert Split("a,,b", ',') == ["a"] + ([""] + ["b"]) == ["a", "", "b"];
    assert |"a,,b"| == 4;
  }

  /** A trailing comma leaves an empty last piece, which is not a number. */
  lemma ParseLoopsRejectsTrailingComma()
    ensures ParseLoops("1,") == Err(BadLoopCount(""))
  {
    assert "1," == "1" + [','] + "";
    SplitAtSeparator("1", ',', "");
    assert "1"[..0] == "";
    assert Atoi("1") == Some(1);
  }

  /** A piece that is not a number is reported, even among good ones. */
  lemma ParseLoopsRejectsWord()
    ensures ParseLoops("2,x,3") == Err(BadLoopCount("x"))
  {
    assert "2,x,3" == "2" + [','] + "x,3" && "x,3" == "x" + [','] + "3";
    SplitAtSeparator("2", ',', "x,3");
    SplitAtSeparator("x", ',', "3");
    SplitWithoutSeparator("3", ',');
    assert "2"[..0] == "";
    assert Atoi("2") == Some(2);
    assert !IsDigit("x"[0]);
  }
}
