/** The two JavaScript built-ins the genre check is made of:
    `Array.prototype.toString` on an array of strings (the same as `join(",")`)
    and `String.prototype.includes` with its default start position 0.
    Strings are sequences of characters; the comparison is character by
    character, with no case folding. */
module JsBuiltins {

  /** `needle` sits in `hay` starting at index `i`. */
  ghost predicate OccursAt(needle: string, hay: string, i: int)
  {
    0 <= i && i + |needle| <= |hay| && hay[i..i + |needle|] == needle
  }

  /** Reference definition: `needle` is a contiguous piece of `hay`. */
  ghost predicate IsSubstring(needle: string, hay: string)
  {
    exists i :: OccursAt(needle, hay, i)
  }

  /** `hay.includes(needle)`: try every start position from the left. */
  function Includes(hay: string, needle: string): bool
    decreases |hay|
  {
    if |needle| > |hay| then false
    else if hay[..|needle|] == needle then true
    else Includes(hay[1..], needle)
  }

  /** `xs.join(sep)`; `xs.toString()` is `Join(xs, ",")`. */
  function Join(xs: seq<string>, sep: string): string
    decreases |xs|
  {
    if |xs| == 0 then ""
    else if |xs| == 1 then xs[0]
    else xs[0] + sep + Join(xs[1..], sep)
  }

  /** Cutting a string at every occurrence of `c`; the inverse of `Join`
      for pieces that do not contain `c`. */
  function Split(s: string, c: char): (parts: seq<string>)
    ensures |parts| > 0
    decreases |s|
  {
    if |s| == 0 then [""]
    else
      var rest := Split(s[1..], c);
      if s[0] == c then [""] + rest
      else [[s[0]] + rest[0]] + rest[1..]
  }

  /** Sum of the lengths of the pieces. */
  function TotalLength(xs: seq<string>): nat
    decreases |xs|
  {
    if |xs| == 0 then 0 else |xs[0]| + TotalLength(xs[1..])
  }

  /** Index in `Join(xs, sep)` at which piece `k` starts. */
  function Offset(xs: seq<string>, sep: string, k: nat): nat
    requires k <= |xs|
    decreases k
  {
    if k == 0 then 0 else Offset(xs, sep, k - 1) + |xs[k - 1]| + |sep|
  }

  // ---------------------------------------------------------------------
  // Includes agrees with the reference definition

  lemma {:induction false} IncludesIsSubstring(hay: string, needle: string)
    ensures Includes(hay, needle) <==> IsSubstring(needle, hay)
    decreases |hay|
  {
    if |needle| > |hay| {
    } else if hay[..|needle|] == needle {
      assert OccursAt(needle, hay, 0);
    } else {
      IncludesIsSubstring(hay[1..], needle);
      if IsSubstring(needle, hay[1..]) {
        var i :| OccursAt(needle, hay[1..], i);
        assert hay[i + 1..i + 1 + |needle|] == hay[1..][i..i + |needle|];
        assert OccursAt(needle, hay, i + 1);
      }
      if IsSubstring(needle, hay) {
        var i :| OccursAt(needle, hay, i);
        assert i != 0;
        assert hay[1..][i - 1..i - 1 + |needle|] == hay[i..i + |needle|];
        assert OccursAt(needle, hay[1..], i - 1);
      }
    }
  }

  /** The empty string is found in every string. */
  lemma EmptyIsIncluded(hay: string)
    ensures Includes(hay, "")
  {
    IncludesIsSubstring(hay, "");
    assert OccursAt("", hay, 0);
  }

  // ---------------------------------------------------------------------
  // Join

  lemma {:induction false} JoinLength(xs: seq<string>, sep: string)
    requires |xs| > 0
    ensures |Join(xs, sep)| == TotalLength(xs) + (|xs| - 1) * |sep|
    decreases |xs|
  {
    if |xs| > 1 {
      JoinLength(xs[1..], sep);
    }
  }

  /** The joined string starts with the first piece. */
  lemma JoinStartsWithHead(xs: seq<string>, sep: string)
    requires |xs| > 0
    ensures |xs[0]| <= |Join(xs, sep)|
    ensures Join(xs, sep)[..|xs[0]|] == xs[0]
  {
  }

  /** Piece `k` of `xs` sits in `Join(xs, sep)` at `Offset(xs, sep, k)`. */
  lemma {:induction false} JoinPieceAt(xs: seq<string>, sep: string, k: nat)
    requires k < |xs|
    ensures OccursAt(xs[k], Join(xs, sep), Offset(xs, sep, k))
    decreases |xs|
  {
    if k == 0 {
      JoinStartsWithHead(xs, sep);
    } else {
      JoinPieceAt(xs[1..], sep, k - 1);
      OffsetShift(xs, sep, k);
      var j := Join(xs[1..], sep);
      var o := Offset(xs[1..], sep, k - 1);
      var p := |xs[0]| + |sep|;
      assert Join(xs, sep) == xs[0] + sep + j;
      assert (xs[0] + sep + j)[p + o..p + o + |xs[k]|] == j[o..o + |xs[k]|];
    }
  }

  lemma {:induction false} OffsetShift(xs: seq<string>, sep: string, k: nat)
    requires 0 < k <= |xs|
    ensures Offset(xs, sep, k) == |xs[0]| + |sep| + Offset(xs[1..], sep, k - 1)
    decreases k
  {
    if k > 1 {
      OffsetShift(xs, sep, k - 1);
    }
  }

  /** Every piece of a joined list is a substring of the joined string. */
  lemma PieceIsSubstring(xs: seq<string>, sep: string, k: nat)
    requires k < |xs|
    ensures IsSubstring(xs[k], Join(xs, sep))
  {
    JoinPieceAt(xs, sep, k);
  }

  /** A needle free of the separator that occurs in the joined string
      already occurs in one of the pieces: matches that straddle a
      separator need the separator. */
  lemma {:induction false} SeparatorFreeMatchIsInAPiece(xs: seq<string>, c: char, needle: string)
    requires |xs| > 0
    requires c !in needle
    requires IsSubstring(needle, Join(xs, [c]))
    ensures exists k :: 0 <= k < |xs| && IsSubstring(needle, xs[k])
    decreases |xs|
  {
    if |xs| == 1 {
      assert IsSubstring(needle, xs[0]);
    } else {
      var head := xs[0];
      var tail := Join(xs[1..], [c]);
      var whole := Join(xs, [c]);
      assert whole == head + [c] + tail;
      var i :| OccursAt(needle, whole, i);
      assert whole[|head|] == c;
      if i + |needle| <= |head| {
        assert whole[i..i + |needle|] == head[i..i + |needle|];
        assert OccursAt(needle, head, i);
      } else {
        // a match reaching past the head would contain the separator
        assert i > |head|;
        assert whole[i..i + |needle|] == tail[i - |head| - 1..i - |head| - 1 + |needle|];
        assert OccursAt(needle, tail, i - |head| - 1);
        SeparatorFreeMatchIsInAPiece(xs[1..], c, needle);
        var k :| 0 <= k < |xs[1..]| && IsSubstring(needle, xs[1..][k]);
        assert xs[1..][k] == xs[k + 1];
      }
    }
  }

  /** A substring of one piece is a substring of the joined string. */
  lemma PieceMatchIsJoinMatch(xs: seq<string>, sep: string, k: nat, needle: string)
    requires k < |xs|
    requires IsSubstring(needle, xs[k])
    ensures IsSubstring(needle, Join(xs, sep))
  {
    var i :| OccursAt(needle, xs[k], i);
    JoinPieceAt(xs, sep, k);
    var o := Offset(xs, sep, k);
    var whole := Join(xs, sep);
    assert whole[o + i..o + i + |needle|] == xs[k][i..i + |needle|];
    assert OccursAt(needle, whole, o + i);
  }

  /** The tail of piece `k`, the separator and the head of piece `k + 1`
      form a substring of the joined string, starting inside piece `k`. */
  lemma {:induction false} StraddlingMatch(xs: seq<string>, sep: string, k: nat, i: nat, j: nat)
    requires k + 1 < |xs|
    requires i <= |xs[k]| && j <= |xs[k + 1]|
    ensures OccursAt(xs[k][i..] + sep + xs[k + 1][..j], Join(xs, sep), Offset(xs, sep, k) + i)
    ensures IsSubstring(xs[k][i..] + sep + xs[k + 1][..j], Join(xs, sep))
    decreases k
  {
    var needle := xs[k][i..] + sep + xs[k + 1][..j];
    var whole := Join(xs, sep);
    var tail := Join(xs[1..], sep);
    assert whole == xs[0] + sep + tail;
    if k == 0 {
      JoinStartsWithHead(xs[1..], sep);
      assert whole[i..i + |needle|] == needle;
    } else {
      assert xs[1..][k - 1] == xs[k] && xs[1..][k] == xs[k + 1];
      StraddlingMatch(xs[1..], sep, k - 1, i, j);
      OffsetShift(xs, sep, k);
      var o := Offset(xs[1..], sep, k - 1) + i;
      var p := |xs[0]| + |sep|;
      assert whole[p + o..p + o + |needle|] == tail[o..o + |needle|];
    }
    assert OccursAt(needle, whole, Offset(xs, sep, k) + i);
  }

  /** A character that is in no piece and is not the separator is not in
      the joined string. */
  lemma {:induction false} CharAbsentFromJoin(xs: seq<string>, c: char, ch: char)
    requires ch != c
    requires forall k :: 0 <= k < |xs| ==> ch !in xs[k]
    ensures ch !in Join(xs, [c])
    decreases |xs|
  {
    if |xs| > 1 {
      CharAbsentFromJoin(xs[1..], c, ch);
      var whole := Join(xs, [c]);
      assert whole == xs[0] + [c] + Join(xs[1..], [c]);
      forall i | 0 <= i < |whole|
        ensures whole[i] != ch
      {
        if i > |xs[0]| {
          assert whole[i] == Join(xs[1..], [c])[i - |xs[0]| - 1];
        }
      }
    } else if |xs| == 1 {
      assert ch !in xs[0];
    }
  }

  /** A needle holding a character the haystack lacks is not a substring. */
  lemma MissingCharRulesOut(needle: string, hay: string, ch: char)
    requires ch in needle
    requires ch !in hay
    ensures !IsSubstring(needle, hay)
  {
    var j :| 0 <= j < |needle| && needle[j] == ch;
    forall i | 0 <= i <= |hay| - |needle|
      ensures !OccursAt(needle, hay, i)
    {
      assert hay[i..i + |needle|][j] == hay[i + j];
    }
  }

  // ---------------------------------------------------------------------
  // Split undoes Join

  lemma {:induction false} SplitPlain(x: string, c: char)
    requires c !in x
    ensures Split(x, c) == [x]
    decreases |x|
  {
    if |x| > 0 {
      assert forall i | 0 <= i < |x[1..]| :: x[1..][i] == x[i + 1];
      SplitPlain(x[1..], c);
      assert x[0] != c;
      assert [x[0]] + x[1..] == x;
    }
  }

  lemma {:induction false} SplitAtFirst(x: string, c: char, t: string)
    requires c !in x
    ensures Split(x + [c] + t, c) == [x] + Split(t, c)
    decreases |x|
  {
    if |x| == 0 {
      assert x + [c] + t == [c] + t;
      assert ([c] + t)[1..] == t;
    } else {
      assert forall i | 0 <= i < |x[1..]| :: x[1..][i] == x[i + 1];
      SplitAtFirst(x[1..], c, t);
      var s := x + [c] + t;
      assert s[0] == x[0] && x[0] != c;
      assert s[1..] == x[1..] + [c] + t;
      assert [x[0]] + x[1..] == x;
    }
  }

  /** Round trip: splitting a joined list at its one-character separator
      gives the list back, provided no piece contains the separator. */
  lemma {:induction false} SplitJoin(xs: seq<string>, c: char)
    requires |xs| > 0
    requires forall k :: 0 <= k < |xs| ==> c !in xs[k]
    ensures Split(Join(xs, [c]), c) == xs
    decreases |xs|
  {
    if |xs| == 1 {
      SplitPlain(xs[0], c);
    } else {
      SplitJoin(xs[1..], c);
      SplitAtFirst(xs[0], c, Join(xs[1..], [c]));
      assert [xs[0]] + xs[1..] == xs;
    }
  }
}
