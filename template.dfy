/** Template literals with interpolated holes, and the decoder that reads
    the holes back out of a filled template. */
module Template {
  import opened Js

  /** `${}` interpolation: the fixed fragments with the holes between them,
      `frags[0] + holes[0] + frags[1] + ... + frags[n]`. No hole is escaped. */
  function Fill(frags: seq<string>, holes: seq<string>): string
    requires |frags| == |holes| + 1
    decreases |holes|
  {
    if |holes| == 0 then frags[0]
    else frags[0] + holes[0] + Fill(frags[1..], holes[1..])
  }

  /** The longest prefix of s that does not contain c. */
  function TakeUntil(s: string, c: char): (r: string)
    ensures r <= s && c !in r
    ensures |r| < |s| ==> s[|r|] == c
  {
    if |s| == 0 || s[0] == c then [] else [s[0]] + TakeUntil(s[1..], c)
  }

  /** Reads the holes back out of a string: each hole but the last ends just
      before the first character of the fragment that follows it; the last
      hole is whatever sits between its fragment and the final fragment. */
  function Unfill(frags: seq<string>, s: string): (r: Option<seq<string>>)
    requires |frags| >= 1
    ensures r.Some? ==> |r.value| == |frags| - 1
    decreases |frags|
  {
    if |frags| == 1 then
      if s == frags[0] then Some([]) else None
    else if !(frags[0] <= s) then None
    else
      var rest := s[|frags[0]|..];
      var last := frags[1];
      if |frags| == 2 then
        if |last| <= |rest| && rest[|rest| - |last|..] == last
        then Some([rest[..|rest| - |last|]]) else None
      else if |last| == 0 then None
      else
        var hole := TakeUntil(rest, last[0]);
        match Unfill(frags[1..], rest[|hole|..])
        case None => None
        case Some(hs) => Some([hole] + hs)
  }

  /** No hole but the last contains the character that opens the next
      fragment: the condition under which the holes can be read back. */
  predicate Delimited(frags: seq<string>, holes: seq<string>)
    requires |frags| == |holes| + 1
  {
    forall i :: 0 < i < |holes| ==> |frags[i]| > 0 && frags[i][0] !in holes[i - 1]
  }

  lemma FillStartsWith(frags: seq<string>, holes: seq<string>)
    requires |frags| == |holes| + 1
    ensures frags[0] <= Fill(frags, holes)
  {
  }

  lemma {:induction false} TakeUntilStops(a: string, b: string, c: char)
    requires c !in a && |b| > 0 && b[0] == c
    ensures TakeUntil(a + b, c) == a
  {
    if |a| > 0 {
      assert (a + b)[1..] == a[1..] + b;
      TakeUntilStops(a[1..], b, c);
    }
  }

  lemma DelimitedTail(frags: seq<string>, holes: seq<string>)
    requires |frags| == |holes| + 1 && |holes| > 0
    requires Delimited(frags, holes)
    ensures Delimited(frags[1..], holes[1..])
  {
  }

  lemma UnfillLast(frags: seq<string>, h: string)
    requires |frags| == 2
    ensures Unfill(frags, frags[0] + h + frags[1]) == Some([h])
  {
    var s := frags[0] + h + frags[1];
    assert frags[0] <= s;
    var rest := s[|frags[0]|..];
    assert rest == h + frags[1];
    assert rest[|rest| - |frags[1]|..] == frags[1];
    assert rest[..|rest| - |frags[1]|] == h;
  }

  lemma UnfillCons(frags: seq<string>, h: string, tail: string)
    requires |frags| > 2 && |frags[1]| > 0 && frags[1][0] !in h && frags[1] <= tail
    ensures Unfill(frags, frags[0] + h + tail) ==
      match Unfill(frags[1..], tail)
      case None => None
      case Some(hs) => Some([h] + hs)
  {
    var s := frags[0] + h + tail;
    assert frags[0] <= s;
    var rest := s[|frags[0]|..];
    assert rest == h + tail;
    TakeUntilStops(h, tail, frags[1][0]);
    assert rest[|h|..] == tail;
  }

  /** Round trip: when the holes are delimited, decoding the filled template
      gives back exactly the holes. */
  lemma {:induction false} UnfillFill(frags: seq<string>, holes: seq<string>)
    requires |frags| == |holes| + 1
    requires Delimited(frags, holes)
    ensures Unfill(frags, Fill(frags, holes)) == Some(holes)
  {
    if |holes| == 1 {
      assert Fill(frags, holes) == frags[0] + holes[0] + frags[1];
      UnfillLast(frags, holes[0]);
      assert [holes[0]] == holes;
    } else if |holes| > 1 {
      var tail := Fill(frags[1..], holes[1..]);
      assert Fill(frags, holes) == frags[0] + holes[0] + tail;
      assert |frags[1]| > 0 && frags[1][0] !in holes[1 - 1];
      FillStartsWith(frags[1..], holes[1..]);
      UnfillCons(frags, holes[0], tail);
      DelimitedTail(frags, holes);
      UnfillFill(frags[1..], holes[1..]);
      assert [holes[0]] + holes[1..] == holes;
    }
  }
}
