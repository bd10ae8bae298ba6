/**
Detection selection in `apps/biometric-verifier/src/yunet.rs`: intersection over union, the in-place
non-maximum suppression and the choice of the best face.  Coordinates and scores are reals.
*/
module Suppression {
  import opened Wrappers

  datatype Detection = Detection(x: real, y: real, w: real, h: real, score: real)

  function Max(a: real, b: real): real {
    if a >= b then a else b
  }

  function Min(a: real, b: real): real {
    if a <= b then a else b
  }

  // ---- Intersection over union ----

  function Overlap(start1: real, size1: real, start2: real, size2: real): real {
    Max(Min(start1 + size1, start2 + size2) - Max(start1, start2), 0.0)
  }

  function Inter(a: Detection, b: Detection): real {
    Overlap(a.x, a.w, b.x, b.w) * Overlap(a.y, a.h, b.y, b.h)
  }

  function Area(a: Detection): real {
    Max(a.w, 0.0) * Max(a.h, 0.0)
  }

  function Iou(a: Detection, b: Detection): real {
    var union := Area(a) + Area(b) - Inter(a, b);
    if union <= 0.0 then 0.0 else Inter(a, b) / union
  }

  lemma ProductGrows(a: real, b: real, c: real, d: real)
    requires 0.0 <= a <= c && 0.0 <= b <= d
    ensures 0.0 <= a * b <= c * d
  {
    assert a * b <= c * b <= c * d;
  }

  lemma OverlapIsSmall(start1: real, size1: real, start2: real, size2: real)
    ensures 0.0 <= Overlap(start1, size1, start2, size2) <= Max(size1, 0.0)
    ensures Overlap(start1, size1, start2, size2) <= Max(size2, 0.0)
  {
  }

  lemma InterIsSmall(a: Detection, b: Detection)
    ensures 0.0 <= Inter(a, b) <= Area(a) && Inter(a, b) <= Area(b)
  {
    hide Overlap;
    OverlapIsSmall(a.x, a.w, b.x, b.w);
    OverlapIsSmall(a.y, a.h, b.y, b.h);
    var w, h := Overlap(a.x, a.w, b.x, b.w), Overlap(a.y, a.h, b.y, b.h);
    ProductGrows(w, h, Max(a.w, 0.0), Max(a.h, 0.0));
    ProductGrows(w, h, Max(b.w, 0.0), Max(b.h, 0.0));
  }

  lemma OverItself(x: real)
    requires x != 0.0
    ensures x / x == 1.0
  {
  }

  lemma RatioInUnit(x: real, y: real)
    requires 0.0 <= x <= y && 0.0 < y
    ensures 0.0 <= x / y <= 1.0
  {
  }

  lemma OverlapSymmetric(start1: real, size1: real, start2: real, size2: real)
    ensures Overlap(start1, size1, start2, size2) == Overlap(start2, size2, start1, size1)
    ensures Overlap(start1, size1, start1, size1) == Max(size1, 0.0)
  {
  }

  /** For all boxes, even of negative size: symmetric, and between 0 and 1. */
  lemma IouIsRatio(a: Detection, b: Detection)
    ensures Iou(a, b) == Iou(b, a) && 0.0 <= Iou(a, b) <= 1.0
  {
    hide Overlap, Area;
    InterIsSmall(a, b);
    OverlapSymmetric(a.x, a.w, b.x, b.w);
    OverlapSymmetric(a.y, a.h, b.y, b.h);
    assert Inter(a, b) == Inter(b, a);
    var union := Area(a) + Area(b) - Inter(a, b);
    if union > 0.0 {
      RatioInUnit(Inter(a, b), union);
    }
  }

  /** A box with an area overlaps itself entirely. */
  lemma IouWithItself(a: Detection)
    ensures Iou(a, a) == if a.w > 0.0 && a.h > 0.0 then 1.0 else 0.0
  {
    hide Overlap;
    OverlapSymmetric(a.x, a.w, a.x, a.w);
    OverlapSymmetric(a.y, a.h, a.y, a.h);
    assert Inter(a, a) == Area(a);
    assert Area(a) + Area(a) - Inter(a, a) == Area(a);
    if a.w > 0.0 && a.h > 0.0 {
      assert Area(a) == a.w * a.h > 0.0;
      OverItself(Area(a));
    } else {
      assert Area(a) == 0.0;
    }
  }

  // ---- What it measures ----

  /** The point is inside the box. */
  ghost predicate Inside(d: Detection, px: real, py: real) {
    d.x < px < d.x + d.w && d.y < py < d.y + d.h
  }

  /** The points of `c` are those of both boxes. */
  ghost predicate IsCommon(a: Detection, b: Detection, c: Detection) {
    forall px: real, py: real :: Inside(c, px, py) <==> Inside(a, px, py) && Inside(b, px, py)
  }

  ghost predicate SharePoint(a: Detection, b: Detection) {
    exists px: real, py: real :: Inside(a, px, py) && Inside(b, px, py)
  }

  /** What two boxes with a point in common have in common is a box. */
  lemma CommonBox(a: Detection, b: Detection) returns (c: Detection)
    requires SharePoint(a, b)
    ensures c.w > 0.0 && c.h > 0.0 && IsCommon(a, b, c)
  {
    var left, top := Max(a.x, b.x), Max(a.y, b.y);
    var right, bottom := Min(a.x + a.w, b.x + b.w), Min(a.y + a.h, b.y + b.h);
    c := Detection(left, top, right - left, bottom - top, 0.0);
  }

  /** The common box determines its sides. */
  lemma CommonSides(a: Detection, b: Detection, c: Detection)
    requires c.w > 0.0 && c.h > 0.0 && IsCommon(a, b, c)
    ensures c.w == Overlap(a.x, a.w, b.x, b.w) && c.h == Overlap(a.y, a.h, b.y, b.h)
  {
    var left, top := Max(a.x, b.x), Max(a.y, b.y);
    var right, bottom := Min(a.x + a.w, b.x + b.w), Min(a.y + a.h, b.y + b.h);
    var mx, my := Middle(c.x, c.x + c.w), Middle(c.y, c.y + c.h);
    assert Inside(c, mx, my);
    var px := if c.x < left then Middle(c.x, Min(left, c.x + c.w)) else Middle(left, c.x);
    var qx := if right < c.x + c.w then Middle(Max(right, c.x), c.x + c.w) else Middle(c.x + c.w, right);
    var py := if c.y < top then Middle(c.y, Min(top, c.y + c.h)) else Middle(top, c.y);
    var qy := if bottom < c.y + c.h then Middle(Max(bottom, c.y), c.y + c.h) else Middle(c.y + c.h, bottom);
    assert Inside(c, px, my) <==> Inside(a, px, my) && Inside(b, px, my);
    assert Inside(c, qx, my) <==> Inside(a, qx, my) && Inside(b, qx, my);
    assert Inside(c, mx, py) <==> Inside(a, mx, py) && Inside(b, mx, py);
    assert Inside(c, mx, qy) <==> Inside(a, mx, qy) && Inside(b, mx, qy);
  }

  function Middle(u: real, v: real): real {
    (u + v) / 2.0
  }

  lemma Products(a: real, b: real)
    requires a > 0.0 && b > 0.0
    ensures a * b > 0.0
  {
  }

  lemma Quotient(x: real, y: real)
    requires y > 0.0
    ensures x / y * y == x
  {
  }

  /** The area of what two boxes share, over the area of what either covers; zero if they share nothing. */
  lemma IouMeasures(a: Detection, b: Detection, c: Detection)
    requires SharePoint(a, b) ==> c.w > 0.0 && c.h > 0.0 && IsCommon(a, b, c)
    ensures if SharePoint(a, b)
            then Iou(a, b) * (a.w * a.h + b.w * b.h - c.w * c.h) == c.w * c.h > 0.0
                 && a.w * a.h + b.w * b.h - c.w * c.h > 0.0
            else Iou(a, b) == 0.0
  {
    hide Area, Inter, IsCommon, Iou;
    IouTimes(a, b);
    if SharePoint(a, b) {
      var px, py :| Inside(a, px, py) && Inside(b, px, py);
      CommonArea(a, b, c);
      PositiveArea(a);
      PositiveArea(b);
      InterIsSmall(a, b);
    } else {
      NothingShared(a, b);
    }
  }

  lemma PositiveArea(a: Detection)
    requires a.w > 0.0 && a.h > 0.0
    ensures Area(a) == a.w * a.h > 0.0
  {
    Products(a.w, a.h);
  }

  lemma CommonArea(a: Detection, b: Detection, c: Detection)
    requires c.w > 0.0 && c.h > 0.0 && IsCommon(a, b, c)
    ensures Inter(a, b) == c.w * c.h > 0.0
  {
    hide Overlap, IsCommon;
    CommonSides(a, b, c);
    Products(c.w, c.h);
  }

  lemma IouTimes(a: Detection, b: Detection)
    ensures var union := Area(a) + Area(b) - Inter(a, b);
            if union > 0.0 then Iou(a, b) * union == Inter(a, b) else Iou(a, b) == 0.0
  {
    hide Area, Inter;
    var union := Area(a) + Area(b) - Inter(a, b);
    if union > 0.0 {
      Quotient(Inter(a, b), union);
    }
  }

  lemma NothingShared(a: Detection, b: Detection)
    requires !SharePoint(a, b)
    ensures Inter(a, b) == 0.0
  {
    var left, top := Max(a.x, b.x), Max(a.y, b.y);
    var right, bottom := Min(a.x + a.w, b.x + b.w), Min(a.y + a.h, b.y + b.h);
    if left < right && top < bottom {
      var px, py := Middle(left, right), Middle(top, bottom);
      assert Inside(a, px, py) && Inside(b, px, py);
    }
  }

  /** Of a box inside another: the quotient of their areas. */
  lemma IouOfPart(a: Detection, b: Detection)
    requires a.w > 0.0 && a.h > 0.0
    requires b.x <= a.x && a.x + a.w <= b.x + b.w && b.y <= a.y && a.y + a.h <= b.y + b.h
    ensures b.w * b.h > 0.0 && Iou(a, b) == (a.w * a.h) / (b.w * b.h)
  {
    hide Iou;
    var px, py := Middle(a.x, a.x + a.w), Middle(a.y, a.y + a.h);
    assert Inside(a, px, py) && Inside(b, px, py);
    IouMeasures(a, b, a);
    Products(b.w, b.h);
    IsQuotient(Iou(a, b), b.w * b.h, a.w * a.h);
  }

  lemma IsQuotient(q: real, y: real, x: real)
    requires y > 0.0 && q * y == x
    ensures q == x / y
  {
  }

  // ---- Stable sort by falling score ----

  function Insert(sorted: seq<Detection>, d: Detection): seq<Detection> {
    if sorted == [] then [d]
    else if sorted[|sorted| - 1].score < d.score then Insert(sorted[..|sorted| - 1], d) + [sorted[|sorted| - 1]]
    else sorted + [d]
  }

  function SortByScore(faces: seq<Detection>): seq<Detection> {
    if faces == [] then [] else Insert(SortByScore(faces[..|faces| - 1]), faces[|faces| - 1])
  }

  predicate Falling(faces: seq<Detection>) {
    forall i, j | 0 <= i < j < |faces| :: faces[i].score >= faces[j].score
  }

  function OfScore(faces: seq<Detection>, score: real): seq<Detection> {
    if faces == [] then []
    else OfScore(faces[..|faces| - 1], score) + if faces[|faces| - 1].score == score then [faces[|faces| - 1]] else []
  }

  lemma OfScoreSnoc(faces: seq<Detection>, d: Detection, score: real)
    ensures OfScore(faces + [d], score) == OfScore(faces, score) + if d.score == score then [d] else []
  {
    assert (faces + [d])[..|faces|] == faces;
  }

  lemma {:induction false} InsertFalls(sorted: seq<Detection>, d: Detection)
    requires Falling(sorted)
    ensures Falling(Insert(sorted, d))
    ensures forall x <- Insert(sorted, d) :: x in sorted || x == d
  {
    if sorted != [] {
      var init, last := sorted[..|sorted| - 1], sorted[|sorted| - 1];
      if last.score < d.score {
        InsertFalls(init, d);
        assert forall x <- init :: x.score >= last.score;
        assert forall x <- Insert(init, d) :: x.score >= last.score;
      }
    }
  }

  lemma {:induction false} InsertAdds(sorted: seq<Detection>, d: Detection)
    ensures multiset(Insert(sorted, d)) == multiset(sorted) + multiset{d}
  {
    if sorted != [] {
      var init, last := sorted[..|sorted| - 1], sorted[|sorted| - 1];
      assert sorted == init + [last];
      InsertAdds(init, d);
    }
  }

  lemma {:induction false} InsertKeepsOrder(sorted: seq<Detection>, d: Detection, score: real)
    requires Falling(sorted)
    ensures OfScore(Insert(sorted, d), score) == OfScore(sorted, score) + if d.score == score then [d] else []
  {
    hide OfScore;
    OfScoreSnoc(sorted, d, score);
    if sorted == [] {
      assert [] + [d] == [d];
    } else {
      var init, last := sorted[..|sorted| - 1], sorted[|sorted| - 1];
      assert sorted == init + [last];
      if last.score < d.score {
        InsertKeepsOrder(init, d, score);
        OfScoreSnoc(Insert(init, d), last, score);
        OfScoreSnoc(init, last, score);
        assert OfScore(sorted, score) == OfScore(init, score) + if last.score == score then [last] else [];
      }
    }
  }

  /** A permutation, in order of falling score, that keeps the order of equal scores. */
  lemma {:induction false} SortIsStable(faces: seq<Detection>, score: real)
    ensures Falling(SortByScore(faces)) && multiset(SortByScore(faces)) == multiset(faces)
    ensures OfScore(SortByScore(faces), score) == OfScore(faces, score)
  {
    hide Insert, OfScore;
    if faces == [] {
      assert SortByScore([]) == [];
    } else {
      var n := |faces| - 1;
      SortIsStable(faces[..n], score);
      var sorted := SortByScore(faces[..n]);
      InsertFalls(sorted, faces[n]);
      InsertAdds(sorted, faces[n]);
      InsertKeepsOrder(sorted, faces[n], score);
      assert faces == faces[..n] + [faces[n]];
      OfScoreSnoc(faces[..n], faces[n], score);
    }
  }

  // ---- Greedy selection ----

  /** The faces that do not overlap `face` above the threshold. */
  function Clear(faces: seq<Detection>, face: Detection, threshold: real): (r: seq<Detection>)
    ensures |r| <= |faces|
  {
    if faces == [] then []
    else (if Iou(face, faces[0]) > threshold then [] else [faces[0]]) + Clear(faces[1..], face, threshold)
  }

  /** The first face, then greedily among those clear of it, until the cap; at least one. */
  function Greedy(faces: seq<Detection>, threshold: real, topK: nat): seq<Detection>
    decreases |faces|
  {
    if faces == [] then []
    else [faces[0]] + if topK <= 1 then [] else Greedy(Clear(faces[1..], faces[0], threshold), threshold, topK - 1)
  }

  /** The faces not suppressed. */
  function Live(faces: seq<Detection>, suppressed: seq<bool>): seq<Detection>
    requires |suppressed| == |faces|
  {
    if faces == [] then []
    else (if suppressed[0] then [] else [faces[0]]) + Live(faces[1..], suppressed[1..])
  }

  lemma {:induction false} LiveClear(
    faces: seq<Detection>, before: seq<bool>, after: seq<bool>, face: Detection, threshold: real)
    requires |before| == |after| == |faces|
    requires forall k | 0 <= k < |faces| :: after[k] == (before[k] || Iou(face, faces[k]) > threshold)
    ensures Live(faces, after) == Clear(Live(faces, before), face, threshold)
  {
    hide Iou;
    if faces != [] {
      LiveClear(faces[1..], before[1..], after[1..], face, threshold);
      var rest := Live(faces[1..], before[1..]);
      assert before[0] ==> Live(faces, before) == rest;
      assert !before[0] ==> Live(faces, before) == [faces[0]] + rest && ([faces[0]] + rest)[1..] == rest;
    }
  }

  lemma {:induction false} AllLive(faces: seq<Detection>, suppressed: seq<bool>)
    requires |suppressed| == |faces| && forall k | 0 <= k < |faces| :: !suppressed[k]
    ensures Live(faces, suppressed) == faces
  {
    if faces != [] {
      AllLive(faces[1..], suppressed[1..]);
    }
  }

  lemma LiveFrom(faces: seq<Detection>, suppressed: seq<bool>, i: nat)
    requires i < |faces| == |suppressed|
    ensures Live(faces[i..], suppressed[i..])
         == (if suppressed[i] then [] else [faces[i]]) + Live(faces[i + 1..], suppressed[i + 1..])
  {
    assert faces[i..][1..] == faces[i + 1..] && suppressed[i..][1..] == suppressed[i + 1..];
  }

  lemma GreedyStep(first: Detection, rest: seq<Detection>, threshold: real, topK: nat)
    ensures Greedy([first] + rest, threshold, topK)
         == [first] + if topK <= 1 then [] else Greedy(Clear(rest, first, threshold), threshold, topK - 1)
  {
    assert ([first] + rest)[1..] == rest;
  }

  method Nms(input: seq<Detection>, threshold: real, topK: nat) returns (kept: seq<Detection>)
    ensures kept == Greedy(SortByScore(input), threshold, topK)
  {
    hide Greedy, Live, Clear, Iou, SortByScore;
    var faces := SortByScore(input);
    var n := |faces|;
    var suppressed := new bool[n](_ => false);
    AllLive(faces, suppressed[..]);
    kept := [];
    assert faces[0..] == faces && suppressed[..][0..] == suppressed[..];
    for i := 0 to n
      invariant kept == [] || |kept| < topK
      invariant Greedy(faces, threshold, topK)
             == kept + Greedy(Live(faces[i..], suppressed[..][i..]), threshold, topK - |kept|)
    {
      ghost var before := suppressed[..];
      LiveFrom(faces, before, i);
      ghost var rest := Live(faces[i + 1..], before[i + 1..]);
      assert [] + rest == rest;
      if !suppressed[i] {
        GreedyStep(faces[i], rest, threshold, topK - |kept|);
        kept := kept + [faces[i]];
        if |kept| >= topK {
          return;
        }
        for j := i + 1 to n
          invariant forall k | 0 <= k <= i || j <= k < n :: suppressed[k] == before[k]
          invariant forall k | i < k < j :: suppressed[k] == (before[k] || Iou(faces[i], faces[k]) > threshold)
        {
          if !suppressed[j] && Iou(faces[i], faces[j]) > threshold {
            suppressed[j] := true;
          }
        }
        LiveClear(faces[i + 1..], before[i + 1..], suppressed[..][i + 1..], faces[i], threshold);
      }
    }
    assert faces[n..] == [] && suppressed[..][n..] == [];
    NothingLive(threshold, topK - |kept|);
  }

  lemma NothingLive(threshold: real, topK: int)
    requires topK >= 0
    ensures Greedy(Live([], []), threshold, topK) == []
  {
  }

  // ---- What greedy selection means ----

  /** A face is kept when no kept face before it overlaps it above the threshold. */
  ghost predicate KeptAt(faces: seq<Detection>, i: nat, threshold: real)
    requires i < |faces|
    decreases i
  {
    forall j | 0 <= j < i && KeptAt(faces, j, threshold) :: Iou(faces[j], faces[i]) <= threshold
  }

  /** A kept face among the first `i` overlaps face `k`. */
  ghost predicate SuppressedBy(faces: seq<Detection>, i: nat, k: nat, threshold: real)
    requires i <= |faces| && k < |faces|
  {
    exists j | 0 <= j < i && KeptAt(faces, j, threshold) :: Iou(faces[j], faces[k]) > threshold
  }

  /** The kept faces from `i` on. */
  ghost function KeptFrom(faces: seq<Detection>, i: nat, threshold: real): seq<Detection>
    requires i <= |faces|
    decreases |faces| - i
  {
    if i == |faces| then []
    else (if KeptAt(faces, i, threshold) then [faces[i]] else []) + KeptFrom(faces, i + 1, threshold)
  }

  function Take<T>(s: seq<T>, n: nat): seq<T> {
    if |s| <= n then s else s[..n]
  }

  lemma TakeCons<T>(x: T, s: seq<T>, n: nat)
    requires n > 0
    ensures Take([x] + s, n) == [x] + Take(s, n - 1)
  {
  }

  lemma SuppressedNext(faces: seq<Detection>, i: nat, k: nat, threshold: real)
    requires i < |faces| && k < |faces|
    ensures SuppressedBy(faces, i + 1, k, threshold)
       <==> SuppressedBy(faces, i, k, threshold) || (KeptAt(faces, i, threshold) && Iou(faces[i], faces[k]) > threshold)
  {
    hide KeptAt, Iou;
  }

  lemma {:induction false} GreedyFromIndex(
    faces: seq<Detection>, i: nat, suppressed: seq<bool>, threshold: real, topK: nat)
    requires i <= |faces| == |suppressed|
    requires forall k | i <= k < |faces| :: suppressed[k] == SuppressedBy(faces, i, k, threshold)
    ensures Greedy(Live(faces[i..], suppressed[i..]), threshold, topK)
         == Take(KeptFrom(faces, i, threshold), if topK == 0 then 1 else topK)
    decreases |faces| - i
  {
    hide Greedy, Live, Clear, Iou, SuppressedBy;
    if i == |faces| {
      assert faces[i..] == [] && suppressed[i..] == [];
      NothingLive(threshold, topK);
    } else {
      LiveFrom(faces, suppressed, i);
      forall k | i < k < |faces|
        ensures SuppressedBy(faces, i + 1, k, threshold)
             == (suppressed[k] || (KeptAt(faces, i, threshold) && Iou(faces[i], faces[k]) > threshold))
      {
        SuppressedNext(faces, i, k, threshold);
      }
      KeptUnlessSuppressed(faces, i, threshold);
      var rest := Live(faces[i + 1..], suppressed[i + 1..]);
      if suppressed[i] {
        assert [] + rest == rest && [] + KeptFrom(faces, i + 1, threshold) == KeptFrom(faces, i + 1, threshold);
        GreedyFromIndex(faces, i + 1, suppressed, threshold, topK);
      } else {
        GreedyStep(faces[i], rest, threshold, topK);
        TakeCons(faces[i], KeptFrom(faces, i + 1, threshold), if topK == 0 then 1 else topK);
        if topK > 1 {
          var after := seq(|faces|,
            k requires 0 <= k < |faces| => suppressed[k] || Iou(faces[i], faces[k]) > threshold);
          LiveClear(faces[i + 1..], suppressed[i + 1..], after[i + 1..], faces[i], threshold);
          GreedyFromIndex(faces, i + 1, after, threshold, topK - 1);
        }
      }
    }
  }

  lemma KeptUnlessSuppressed(faces: seq<Detection>, i: nat, threshold: real)
    requires i < |faces|
    ensures KeptAt(faces, i, threshold) <==> !SuppressedBy(faces, i, i, threshold)
  {
    hide Iou;
  }

  ghost predicate Apart(faces: seq<Detection>, threshold: real) {
    forall a, b | 0 <= a < b < |faces| :: Iou(faces[a], faces[b]) <= threshold
  }

  lemma {:induction false} KeptOrigin(faces: seq<Detection>, i: nat, threshold: real)
    requires i <= |faces|
    ensures forall x <- KeptFrom(faces, i, threshold) ::
              exists k :: i <= k < |faces| && faces[k] == x && KeptAt(faces, k, threshold)
    decreases |faces| - i
  {
    hide Iou, KeptAt;
    if i < |faces| {
      KeptOrigin(faces, i + 1, threshold);
    }
  }

  lemma PrependKept(face: Detection, rest: seq<Detection>, threshold: real)
    requires Falling(rest) && Apart(rest, threshold)
    requires forall x <- rest :: Iou(face, x) <= threshold && face.score >= x.score
    ensures Falling([face] + rest) && Apart([face] + rest, threshold)
  {
    hide Iou;
    assert forall b | 0 <= b < |rest| :: rest[b] in rest;
  }

  lemma KeptPair(faces: seq<Detection>, i: nat, k: nat, threshold: real)
    requires i < k < |faces| && KeptAt(faces, i, threshold) && KeptAt(faces, k, threshold)
    ensures Iou(faces[i], faces[k]) <= threshold
  {
  }

  lemma HeadIsClear(faces: seq<Detection>, i: nat, threshold: real)
    requires i < |faces| && Falling(faces) && KeptAt(faces, i, threshold)
    ensures forall x <- KeptFrom(faces, i + 1, threshold) :: Iou(faces[i], x) <= threshold && faces[i].score >= x.score
  {
    hide Iou, KeptAt, KeptFrom;
    KeptOrigin(faces, i + 1, threshold);
    forall x | x in KeptFrom(faces, i + 1, threshold)
      ensures Iou(faces[i], x) <= threshold && faces[i].score >= x.score
    {
      var k :| i < k < |faces| && faces[k] == x && KeptAt(faces, k, threshold);
      KeptPair(faces, i, k, threshold);
    }
  }

  lemma KeptStep(faces: seq<Detection>, i: nat, threshold: real)
    requires i <= |faces|
    ensures KeptFrom(faces, i, threshold)
         == if i == |faces| then []
            else if KeptAt(faces, i, threshold) then [faces[i]] + KeptFrom(faces, i + 1, threshold)
            else KeptFrom(faces, i + 1, threshold)
  {
    hide KeptAt;
    if i < |faces| {
      var rest := KeptFrom(faces, i + 1, threshold);
      assert [] + rest == rest;
    }
  }

  lemma {:induction false} KeptAreApart(faces: seq<Detection>, i: nat, threshold: real)
    requires i <= |faces| && Falling(faces)
    ensures Falling(KeptFrom(faces, i, threshold)) && Apart(KeptFrom(faces, i, threshold), threshold)
    decreases |faces| - i
  {
    hide Apart, KeptAt, KeptFrom, Falling;
    KeptStep(faces, i, threshold);
    if i == |faces| {
      NoneApart(threshold);
    } else {
      KeptAreApart(faces, i + 1, threshold);
      if KeptAt(faces, i, threshold) {
        HeadIsClear(faces, i, threshold);
        PrependKept(faces[i], KeptFrom(faces, i + 1, threshold), threshold);
      }
    }
  }

  lemma NoneApart(threshold: real)
    ensures Apart([], threshold) && Falling([])
  {
  }

  /**
  The selected faces are, up to the cap (but at least one), those that no selected face before them
  in score order overlaps above the threshold.  So they are apart from each other, in order of falling
  score, and every face dropped before the cap overlaps a selected one of at least its score.
  */
  lemma GreedyIsKept(faces: seq<Detection>, threshold: real, topK: nat)
    requires Falling(faces)
    ensures Greedy(faces, threshold, topK) == Take(KeptFrom(faces, 0, threshold), if topK == 0 then 1 else topK)
    ensures Falling(Greedy(faces, threshold, topK))
    ensures Apart(Greedy(faces, threshold, topK), threshold)
    ensures forall i | 0 <= i < |faces| && !KeptAt(faces, i, threshold) ::
              exists j :: 0 <= j < i && KeptAt(faces, j, threshold) && Iou(faces[j], faces[i]) > threshold
                       && faces[j].score >= faces[i].score
  {
    hide Iou, Greedy, KeptFrom;
    var none := seq(|faces|, _ => false);
    AllLive(faces, none);
    assert faces[0..] == faces && none[0..] == none;
    GreedyFromIndex(faces, 0, none, threshold, topK);
    KeptAreApart(faces, 0, threshold);
  }

  // ---- The best face ----

  function Key(d: Detection): real {
    Max(d.w, 0.0) * Max(d.h, 0.0) * Max(d.score, 0.0)
  }

  /** Area times score, where nothing is less than zero. */
  lemma KeyIs(d: Detection)
    ensures d.w >= 0.0 && d.h >= 0.0 && d.score >= 0.0 ==> Key(d) == d.w * d.h * d.score
    ensures d.w <= 0.0 || d.h <= 0.0 || d.score <= 0.0 ==> Key(d) == 0.0
  {
  }

  /** The last of the faces with the greatest area times score; none of no faces. */
  function PickBestFace(faces: seq<Detection>): (r: Option<nat>)
    ensures r == None <==> faces == []
    ensures r.Some? ==> r.value < |faces|
    ensures r.Some? ==> forall i | 0 <= i < |faces| :: Key(faces[i]) <= Key(faces[r.value])
    ensures r.Some? ==> forall i | r.value < i < |faces| :: Key(faces[i]) < Key(faces[r.value])
  {
    if faces == [] then None
    else
      var n := |faces| - 1;
      match PickBestFace(faces[..n])
      case None => Some(n)
      case Some(best) => if Key(faces[n]) >= Key(faces[best]) then Some(n) else Some(best)
  }
}
