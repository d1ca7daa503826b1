/** `strings.Split` and `strings.Join` of the Go standard library, for a
    separator of exactly one character (the tool only ever splits on ",").
    Go works on the UTF-8 bytes of a string; an ASCII separator never occurs
    inside the encoding of another character, so splitting the characters is
    the same as splitting the bytes. */
module Strings {

  /** Number of occurrences of `c` in `s`. */
  function Count(s: string, c: char): (n: nat)
    ensures n <= |s|
    ensures n == 0 <==> c !in s
  {
    if |s| == 0 then 0
    else (if s[0] == c then 1 else 0) + Count(s[1..], c)
  }

  /** The pieces of `s` between occurrences of `sep`, in order. An empty `s`
      gives one empty piece, and adjacent, leading or trailing separators give
      empty pieces, exactly as `strings.Split` does for a non-empty separator. */
  function Split(s: string, sep: char): (r: seq<string>)
    ensures |r| == Count(s, sep) + 1
    ensures forall i :: 0 <= i < |r| ==> sep !in r[i]
  {
    if |s| == 0 then [""]
    else
      var rest := Split(s[1..], sep);
      if s[0] == sep then [""] + rest
      else [[s[0]] + rest[0]] + rest[1..]
  }

  /** The pieces joined with `sep` between each neighbouring pair. */
  function Join(pieces: seq<string>, sep: char): string
  {
    if |pieces| == 0 then ""
    else if |pieces| == 1 then pieces[0]
    else pieces[0] + [sep] + Join(pieces[1..], sep)
  }

  /** Joining never loses text: a non-empty first piece gives a non-empty result. */
  lemma JoinNonEmpty(pieces: seq<string>, sep: char)
    requires |pieces| > 0 && |pieces[0]| > 0
    ensures |Join(pieces, sep)| >= |pieces[0]|
  {
  }

  /** One step of `Split`: the first character either ends the first piece or
      joins it. */
  lemma SplitCons(c: char, u: string, sep: char)
    ensures Split([c] + u, sep)
         == (var rest := Split(u, sep);
             if c == sep then [""] + rest else [[c] + rest[0]] + rest[1..])
  {
    var s := [c] + u;
    assert s[0] == c && s[1..] == u;
  }

  /** Joining the pieces of a split gives back the original string. */
  lemma {:induction false} JoinSplit(s: string, sep: char)
    ensures Join(Split(s, sep), sep) == s
  {
    if |s| > 0 {
      var rest := Split(s[1..], sep);
      JoinSplit(s[1..], sep);
      assert s == [s[0]] + s[1..];
      SplitCons(s[0], s[1..], sep);
      if s[0] == sep {
        assert Join([""] + rest, sep) == "" + [sep] + Join(rest, sep);
      } else if |rest| == 1 {
        assert Split(s, sep) == [[s[0]] + rest[0]];
      } else {
        var head := [s[0]] + rest[0];
        assert Join([head] + rest[1..], sep) == head + [sep] + Join(rest[1..], sep);
        assert Join(rest, sep) == rest[0] + [sep] + Join(rest[1..], sep);
      }
    }
  }

  /** A string without the separator splits into itself alone. */
  lemma {:induction false} SplitWithoutSeparator(s: string, sep: char)
    requires sep !in s
    ensures Split(s, sep) == [s]
  {
    if |s| > 0 {
      assert sep !in s[1..];
      SplitWithoutSeparator(s[1..], sep);
      assert [s[0]] + s[1..] == s;
    }
  }

  /** Splitting a separator-free prefix off at the first separator. */
  lemma {:induction false} SplitAtSeparator(a: string, sep: char, t: string)
    requires sep !in a
    ensures Split(a + [sep] + t, sep) == [a] + Split(t, sep)
  {
    if |a| == 0 {
      assert a + [sep] + t == [sep] + t;
      SplitCons(sep, t, sep);
    } else {
      var u := a[1..] + [sep] + t;
      assert a + [sep] + t == [a[0]] + u;
      assert sep !in a[1..];
      SplitAtSeparator(a[1..], sep, t);
      SplitCons(a[0], u, sep);
      assert [a[0]] + a[1..] == a;
    }
  }

  /** Splitting a join of a non-empty list of separator-free pieces gives back
      the pieces; those are exactly the lists `Split` produces, so with
      `JoinSplit` this makes `Split` and `Join` mutually inverse on them. */
  lemma {:induction false} SplitJoin(pieces: seq<string>, sep: char)
    requires |pieces| > 0
    requires forall i :: 0 <= i < |pieces| ==> sep !in pieces[i]
    ensures Split(Join(pieces, sep), sep) == pieces
  {
    if |pieces| == 1 {
      SplitWithoutSeparator(pieces[0], sep);
    } else {
      var tail := pieces[1..];
      assert forall i :: 0 <= i < |tail| ==> sep !in tail[i] by {
        forall i | 0 <= i < |tail| ensures sep !in tail[i] {
          assert tail[i] == pieces[i + 1];
        }
      }
      SplitJoin(tail, sep);
      SplitAtSeparator(pieces[0], sep, Join(tail, sep));
      assert [pieces[0]] + tail == pieces;
    }
  }
}
