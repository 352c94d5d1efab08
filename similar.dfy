/**
 * Matching the faces of a target image against the faces of a candidate image
 * (`azface_similar`, utils.py). For each target face, in detection order, the
 * face service's find-similar call ranks candidate faces; the most confident
 * answer claims its candidate, and a candidate already claimed is taken over
 * only by a strictly more confident claim. Then every face gets a label: a
 * target face its position, a claimed candidate the label of the target that
 * holds it, any other candidate `?`.
 */
module Similar {
  import opened Wrappers
  import opened Strings
  import opened Ranking
  import opened Geometry

  type FaceId = string

  /** A detected face: its service-assigned id and its rectangle. */
  datatype Face = Face(faceId: FaceId, rect: Rect)

  /** One answer of find-similar: a candidate face id and the confidence of the match. */
  datatype SimilarFace = SimilarFace(faceId: FaceId, confidence: real)

  /** `client.face.find_similar(query_id, face_ids=candidate_ids)`, the remote service. */
  type Oracle = (FaceId, seq<FaceId>) -> seq<SimilarFace>

  /** The target face holding a candidate, and with what confidence. */
  datatype Match = Match(query: Face, confidence: real)

  /** What `mark_face` is asked to draw: a face box and its label text. */
  datatype Mark = Mark(box: Box, text: string)

  /**
   * How a call ends: no candidate faces; an answer naming a face that is not
   * among the candidates (looking it up raises `StopIteration`); or every face
   * marked.
   */
  datatype Outcome =
    | NoFacesFound
    | StrayAnswer(faceId: FaceId)
    | Marked(matches: map<FaceId, Match>, targetMarks: seq<Mark>, candidateMarks: seq<Mark>)

  function Ids(faces: seq<Face>): (ids: seq<FaceId>)
    ensures |ids| == |faces| && forall i :: 0 <= i < |faces| ==> ids[i] == faces[i].faceId
  {
    seq(|faces|, i requires 0 <= i < |faces| => faces[i].faceId)
  }

  ghost predicate DistinctIds(faces: seq<Face>)
  {
    forall i, j :: 0 <= i < j < |faces| ==> faces[i].faceId != faces[j].faceId
  }

  /** The service answers only with ids it was asked about. */
  ghost predicate AnswersAmong(oracle: Oracle, queries: seq<FaceId>, ids: seq<FaceId>)
  {
    forall q, s :: q in queries && s in oracle(q, ids) ==> s.faceId in ids
  }

  function Confidence(s: SimilarFace): real
  {
    s.confidence
  }

  // ---------------------------------------------------------------------
  // The greedy claims
  // ---------------------------------------------------------------------

  /** `max(similar_faces, key=confidence)`: the first most confident answer; none for no answers. */
  function BestMatch(similar: seq<SimilarFace>): (best: Option<SimilarFace>)
    ensures best.None? <==> similar == []
    ensures best.Some? ==>
      exists k ::
        && 0 <= k < |similar| && best.value == similar[k]
        && (forall j :: 0 <= j < |similar| ==> similar[j].confidence <= similar[k].confidence)
        && (forall j :: 0 <= j < k ==> similar[j].confidence < similar[k].confidence)
  {
    if similar == [] then None
    else
      var k := FirstMax(similar, Confidence);
      Some(similar[k])
  }

  /**
   * One target's claim on its best match. The matched ids gain at most that
   * match's id, no held confidence drops, and every other id keeps its holder.
   */
  function Claim(matches: map<FaceId, Match>, query: Face, best: Option<SimilarFace>): (r: map<FaceId, Match>)
    ensures r.Keys == matches.Keys + (if best.Some? then {best.value.faceId} else {})
  {
    match best
    case None => matches
    case Some(b) =>
      if b.faceId !in matches || matches[b.faceId].confidence < b.confidence
      then matches[b.faceId := Match(query, b.confidence)]
      else matches
  }

  /** The best match of each target, in target order. */
  function Picks(targets: seq<Face>, ids: seq<FaceId>, oracle: Oracle): (picks: seq<Option<SimilarFace>>)
    ensures |picks| == |targets|
    ensures forall i :: 0 <= i < |targets| ==> picks[i] == BestMatch(oracle(targets[i].faceId, ids))
  {
    seq(|targets|, i requires 0 <= i < |targets| => BestMatch(oracle(targets[i].faceId, ids)))
  }

  /** The matches once the first `n` targets have claimed their picks; each target claims at most one. */
  function MatchesAfter(targets: seq<Face>, picks: seq<Option<SimilarFace>>, n: nat): (m: map<FaceId, Match>)
    requires |picks| == |targets| && n <= |targets|
  {
    if n == 0 then map[]
    else Claim(MatchesAfter(targets, picks, n - 1), targets[n - 1], picks[n - 1])
  }

  /** The matches once every target has claimed; each is held by a target. */
  function FinalMatches(targets: seq<Face>, picks: seq<Option<SimilarFace>>): (m: map<FaceId, Match>)
    requires |picks| == |targets|
    ensures forall c :: c in m ==> m[c].query in targets
  {
    HoldersAreTargets(targets, picks, |targets|);
    assert targets[..|targets|] == targets;
    MatchesAfter(targets, picks, |targets|)
  }

  /** Pick `i` names candidate `c`. */
  ghost predicate Names(picks: seq<Option<SimilarFace>>, i: int, c: FaceId)
  {
    0 <= i < |picks| && picks[i].Some? && picks[i].value.faceId == c
  }

  /**
   * Among the first `n` picks, `j` is the first of those naming `c` whose
   * confidence is the greatest.
   */
  ghost predicate Winner(picks: seq<Option<SimilarFace>>, n: int, c: FaceId, j: int)
  {
    && 0 <= j < n <= |picks|
    && Names(picks, j, c)
    && (forall i :: 0 <= i < n && Names(picks, i, c) ==> picks[i].value.confidence <= picks[j].value.confidence)
    && (forall i :: 0 <= i < j && Names(picks, i, c) ==> picks[i].value.confidence < picks[j].value.confidence)
  }

  /** What one claim does to candidate `c`. */
  lemma ClaimAt(matches: map<FaceId, Match>, query: Face, best: Option<SimilarFace>, c: FaceId)
    ensures var m := Claim(matches, query, best);
      && (c in m <==> c in matches || (best.Some? && best.value.faceId == c))
      && (c in m && !(best.Some? && best.value.faceId == c) ==> m[c] == matches[c])
      && (best.Some? && best.value.faceId == c ==>
            m[c] == if c !in matches || matches[c].confidence < best.value.confidence
                    then Match(query, best.value.confidence) else matches[c])
  {
  }

  /** A candidate is matched exactly when one of the first `n` targets names it as its best match. */
  lemma {:induction false} MatchedIffNamed(targets: seq<Face>, picks: seq<Option<SimilarFace>>, n: nat, c: FaceId)
    requires |picks| == |targets| && n <= |targets|
    ensures c in MatchesAfter(targets, picks, n) <==> exists i :: 0 <= i < n && Names(picks, i, c)
  {
    if n > 0 {
      MatchedIffNamed(targets, picks, n - 1, c);
      ClaimAt(MatchesAfter(targets, picks, n - 1), targets[n - 1], picks[n - 1], c);
      if Names(picks, n - 1, c) {
        assert exists i :: 0 <= i < n && Names(picks, i, c);
      }
    }
  }

  /**
   * A matched candidate is held by the most confident of the targets naming
   * it, the earliest one on a tie, with that target's confidence.
   */
  lemma {:induction false} HeldByWinner(targets: seq<Face>, picks: seq<Option<SimilarFace>>, n: nat, c: FaceId)
    requires |picks| == |targets| && n <= |targets|
    requires c in MatchesAfter(targets, picks, n)
    ensures exists j :: Winner(picks, n, c, j) && MatchesAfter(targets, picks, n)[c] == Match(targets[j], picks[j].value.confidence)
  {
    var prev := MatchesAfter(targets, picks, n - 1);
    var m := MatchesAfter(targets, picks, n);
    ClaimAt(prev, targets[n - 1], picks[n - 1], c);
    if c !in prev {
      MatchedIffNamed(targets, picks, n - 1, c);
      assert m[c] == Match(targets[n - 1], picks[n - 1].value.confidence);
      assert Winner(picks, n, c, n - 1);
    } else {
      HeldByWinner(targets, picks, n - 1, c);
      var j :| Winner(picks, n - 1, c, j) && prev[c] == Match(targets[j], picks[j].value.confidence);
      if Names(picks, n - 1, c) && prev[c].confidence < picks[n - 1].value.confidence {
        assert Winner(picks, n, c, n - 1);
      } else {
        assert Winner(picks, n, c, j);
      }
    }
  }

  /**
   * A candidate is matched exactly when some target names it as its best
   * match, and then it is held by the most confident of those targets, the
   * earliest one on a tie, with that target's confidence.
   */
  lemma MatchesAfterIsBestClaim(targets: seq<Face>, picks: seq<Option<SimilarFace>>, c: FaceId)
    requires |picks| == |targets|
    ensures c in FinalMatches(targets, picks) <==> exists i :: 0 <= i < |targets| && Names(picks, i, c)
    ensures c in FinalMatches(targets, picks) ==>
      exists j :: Winner(picks, |targets|, c, j) && FinalMatches(targets, picks)[c] == Match(targets[j], picks[j].value.confidence)
  {
    MatchedIffNamed(targets, picks, |targets|, c);
    if c in FinalMatches(targets, picks) {
      HeldByWinner(targets, picks, |targets|, c);
    }
  }

  /** Each target claims at most one candidate, so `n` targets match at most `n` candidates. */
  lemma {:induction false} MatchedAtMost(targets: seq<Face>, picks: seq<Option<SimilarFace>>, n: nat)
    requires |picks| == |targets| && n <= |targets|
    ensures |MatchesAfter(targets, picks, n).Keys| <= n
  {
    if n > 0 {
      MatchedAtMost(targets, picks, n - 1);
      var prev := MatchesAfter(targets, picks, n - 1).Keys;
      if picks[n - 1].Some? {
        assert |prev + {picks[n - 1].value.faceId}| <= |prev| + 1;
      }
    }
  }

  /** Every candidate is held by one of the targets that have claimed so far. */
  lemma {:induction false} HoldersAreTargets(targets: seq<Face>, picks: seq<Option<SimilarFace>>, n: nat)
    requires |picks| == |targets| && n <= |targets|
    ensures forall c :: c in MatchesAfter(targets, picks, n) ==> MatchesAfter(targets, picks, n)[c].query in targets[..n]
  {
    if n > 0 {
      HoldersAreTargets(targets, picks, n - 1);
      assert targets[..n - 1] <= targets[..n];
      assert targets[n - 1] in targets[..n];
    }
  }

  /** None of the first `n` picks names a face outside `ids`. */
  ghost predicate PicksAmong(picks: seq<Option<SimilarFace>>, ids: seq<FaceId>, n: int)
  {
    forall i :: 0 <= i < n && i < |picks| && picks[i].Some? ==> picks[i].value.faceId in ids
  }

  /** Pick `i` names a face outside `ids`. */
  ghost predicate IsStray(picks: seq<Option<SimilarFace>>, ids: seq<FaceId>, i: int)
  {
    0 <= i < |picks| && picks[i].Some? && picks[i].value.faceId !in ids
  }

  /** Only ids some pick names are ever matched. */
  lemma {:induction false} ClaimedAmong(targets: seq<Face>, picks: seq<Option<SimilarFace>>, ids: seq<FaceId>, n: nat)
    requires |picks| == |targets| && n <= |targets|
    requires PicksAmong(picks, ids, n)
    ensures forall c :: c in MatchesAfter(targets, picks, n) ==> c in ids
  {
    if n > 0 {
      ClaimedAmong(targets, picks, ids, n - 1);
    }
  }

  /** When the service answers only with ids it was asked about, every best match is a candidate. */
  lemma AnswersGivePicks(targets: seq<Face>, ids: seq<FaceId>, oracle: Oracle)
    requires AnswersAmong(oracle, Ids(targets), ids)
    ensures PicksAmong(Picks(targets, ids, oracle), ids, |targets|)
  {
    var picks := Picks(targets, ids, oracle);
    forall i | 0 <= i < |targets| && picks[i].Some?
      ensures picks[i].value.faceId in ids
    {
      var q := targets[i].faceId;
      assert q in Ids(targets) by {
        assert Ids(targets)[i] == q;
      }
      assert picks[i].value in oracle(q, ids);
    }
  }

  /** When the service never finds a similar face, nothing is matched. */
  lemma {:induction false} NoAnswersNoMatches(targets: seq<Face>, ids: seq<FaceId>, oracle: Oracle, n: nat)
    requires n <= |targets|
    requires forall i :: 0 <= i < n ==> oracle(targets[i].faceId, ids) == []
    ensures MatchesAfter(targets, Picks(targets, ids, oracle), n) == map[]
  {
    if n > 0 {
      NoAnswersNoMatches(targets, ids, oracle, n - 1);
      assert Picks(targets, ids, oracle)[n - 1].None?;
    }
  }

  // ---------------------------------------------------------------------
  // Labels
  // ---------------------------------------------------------------------

  /** Target `i` is the last target with its id. */
  ghost predicate LastWithId(targets: seq<Face>, i: int)
  {
    0 <= i < |targets| && forall j :: i < j < |targets| ==> targets[j].faceId != targets[i].faceId
  }

  /**
   * `{face.face_id: str(i) for i, face in enumerate(target_faces)}`: exactly
   * the target ids are labelled.
   */
  function LabelMap(targets: seq<Face>): (labels: map<FaceId, string>)
    ensures forall i :: 0 <= i < |targets| ==> targets[i].faceId in labels
    ensures forall id :: id in labels ==> exists i :: 0 <= i < |targets| && targets[i].faceId == id
  {
    if |targets| == 0 then map[]
    else
      var n := |targets| - 1;
      var init := targets[..n];
      assert forall i :: 0 <= i < n ==> init[i] == targets[i];
      LabelMap(init)[targets[n].faceId := NatToString(n)]
  }

  /** A target id is labelled by the position of the last target with that id. */
  lemma {:induction false} LabelOfLast(targets: seq<Face>, i: int)
    requires LastWithId(targets, i)
    ensures LabelMap(targets)[targets[i].faceId] == NatToString(i)
  {
    var n := |targets| - 1;
    if i < n {
      var init := targets[..n];
      assert init[i] == targets[i];
      assert LastWithId(init, i) by {
        forall j | i < j < n ensures init[j].faceId != init[i].faceId {
          assert init[j] == targets[j];
        }
      }
      LabelOfLast(init, i);
    }
  }

  /** The label text of a candidate face. */
  function CandidateText(face: Face, matches: map<FaceId, Match>, labels: map<FaceId, string>): string
    requires face.faceId in matches ==> matches[face.faceId].query.faceId in labels
  {
    if face.faceId in matches then labels[matches[face.faceId].query.faceId] else "?"
  }

  function TargetMarks(targets: seq<Face>, labels: map<FaceId, string>): seq<Mark>
    requires forall i :: 0 <= i < |targets| ==> targets[i].faceId in labels
  {
    seq(|targets|, i requires 0 <= i < |targets| => Mark(GetBox(targets[i].rect), labels[targets[i].faceId]))
  }

  function CandidateMarks(candidates: seq<Face>, matches: map<FaceId, Match>, labels: map<FaceId, string>): seq<Mark>
    requires forall c :: c in matches ==> matches[c].query.faceId in labels
  {
    seq(|candidates|, k requires 0 <= k < |candidates| =>
      Mark(GetBox(candidates[k].rect), CandidateText(candidates[k], matches, labels)))
  }

  /** With distinct target ids, target `i` is labelled `str(i)`, and no two targets share a label. */
  lemma TargetLabels(targets: seq<Face>, i: nat, j: nat)
    requires DistinctIds(targets)
    requires i < |targets| && j < |targets| && i != j
    ensures LabelMap(targets)[targets[i].faceId] == NatToString(i)
    ensures LabelMap(targets)[targets[i].faceId] != LabelMap(targets)[targets[j].faceId]
  {
    LabelOfLast(targets, i);
    LabelOfLast(targets, j);
    NatToStringInjective(i, j);
  }

  /**
   * With distinct target ids, a candidate is labelled `?` exactly when no
   * target names it as its best match, and otherwise by the position of the
   * target that wins it.
   */
  lemma CandidateLabel(targets: seq<Face>, candidates: seq<Face>, oracle: Oracle, k: nat)
    requires DistinctIds(targets)
    requires k < |candidates|
    ensures
      var picks := Picks(targets, Ids(candidates), oracle);
      var c := candidates[k].faceId;
      var text := CandidateText(candidates[k], FinalMatches(targets, picks), LabelMap(targets));
      && (text == "?" <==> forall i :: 0 <= i < |targets| ==> !Names(picks, i, c))
      && (text != "?" ==> exists j :: Winner(picks, |targets|, c, j) && text == NatToString(j))
  {
    var picks := Picks(targets, Ids(candidates), oracle);
    var c := candidates[k].faceId;
    var m := FinalMatches(targets, picks);
    var labels := LabelMap(targets);
    MatchesAfterIsBestClaim(targets, picks, c);
    if c in m {
      var j :| Winner(picks, |targets|, c, j) && m[c] == Match(targets[j], picks[j].value.confidence);
      LabelOfLast(targets, j);
      var text := labels[targets[j].faceId];
      assert text[0] != '?';
    }
  }

  // ---------------------------------------------------------------------
  // azface_similar
  // ---------------------------------------------------------------------

  /**
   * The matching loop of `azface_similar`: each target in turn queries
   * find-similar with its id and claims its best match, which is looked up
   * among the candidates; a best match that is not a candidate stops the loop
   * (`stray`). `calls` counts the find-similar calls.
   */
  method FindMatches(targets: seq<Face>, candidateIds: seq<FaceId>, oracle: Oracle)
    returns (matches: map<FaceId, Match>, calls: nat, stray: Option<FaceId>)
    ensures var picks := Picks(targets, candidateIds, oracle);
      stray.None? ==>
        && PicksAmong(picks, candidateIds, |targets|)
        && matches == FinalMatches(targets, picks)
        && calls == |targets|
    ensures var picks := Picks(targets, candidateIds, oracle);
      stray.Some? ==>
        exists k ::
          && IsStray(picks, candidateIds, k) && PicksAmong(picks, candidateIds, k)
          && stray.value == picks[k].value.faceId && calls == k + 1
  {
    ghost var picks := Picks(targets, candidateIds, oracle);
    matches := map[];
    calls := 0;
    for i := 0 to |targets|
      invariant matches == MatchesAfter(targets, picks, i)
      invariant calls == i
      invariant PicksAmong(picks, candidateIds, i)
    {
      var query := targets[i];
      var similar := oracle(query.faceId, candidateIds);
      calls := calls + 1;
      assert picks[i] == BestMatch(similar);
      matches, stray := ClaimBest(matches, query, similar, candidateIds);
      if stray.Some? {
        assert IsStray(picks, candidateIds, i);
        return;
      }
    }
    assert matches == FinalMatches(targets, picks);
    stray := None;
  }

  /**
   * One pass of the matching loop after find-similar answered `similar`: the
   * best answer is looked up among the candidates (`stray` when it is not
   * there) and claims its candidate.
   */
  method ClaimBest(matches: map<FaceId, Match>, query: Face, similar: seq<SimilarFace>, candidateIds: seq<FaceId>)
    returns (next: map<FaceId, Match>, stray: Option<FaceId>)
    ensures var best := BestMatch(similar);
      stray.None? ==> (best.Some? ==> best.value.faceId in candidateIds) && next == Claim(matches, query, best)
    ensures var best := BestMatch(similar);
      stray.Some? ==> best.Some? && best.value.faceId !in candidateIds && stray.value == best.value.faceId
  {
    next, stray := matches, None;
    if similar != [] {
      var best := similar[FirstMax(similar, Confidence)];
      if best.faceId !in candidateIds {
        return matches, Some(best.faceId);
      }
      if best.faceId !in matches || matches[best.faceId].confidence < best.confidence {
        next := matches[best.faceId := Match(query, best.confidence)];
      }
    }
  }

  /** Each target face is marked with its own label. */
  method MarkTargets(targets: seq<Face>, labels: map<FaceId, string>) returns (marks: seq<Mark>)
    requires forall i :: 0 <= i < |targets| ==> targets[i].faceId in labels
    ensures marks == TargetMarks(targets, labels)
  {
    marks := [];
    for j := 0 to |targets|
      invariant marks == TargetMarks(targets, labels)[..j]
    {
      marks := marks + [Mark(GetBox(targets[j].rect), labels[targets[j].faceId])];
    }
  }

  /** Each candidate face is marked with the label of its holder, or `?`. */
  method MarkCandidates(candidates: seq<Face>, matches: map<FaceId, Match>, labels: map<FaceId, string>)
    returns (marks: seq<Mark>)
    requires forall c :: c in matches ==> matches[c].query.faceId in labels
    ensures marks == CandidateMarks(candidates, matches, labels)
  {
    marks := [];
    for k := 0 to |candidates|
      invariant marks == CandidateMarks(candidates, matches, labels)[..k]
    {
      var face := candidates[k];
      var text := if face.faceId in matches then labels[matches[face.faceId].query.faceId] else "?";
      marks := marks + [Mark(GetBox(face.rect), text)];
    }
  }

  /**
   * `azface_similar` on detected faces. `calls` counts the find-similar calls.
   * With no candidate faces nothing is called and only "No faces found" is
   * reported; a best match that is not a candidate face ends the call before
   * anything is drawn; otherwise every target and candidate face is marked.
   */
  method AzfaceSimilar(targets: seq<Face>, candidates: seq<Face>, oracle: Oracle)
    returns (outcome: Outcome, calls: nat)
    ensures outcome.NoFacesFound? <==> candidates == []
    ensures candidates == [] ==> calls == 0
    ensures candidates != [] ==>
      (outcome.Marked? <==> PicksAmong(Picks(targets, Ids(candidates), oracle), Ids(candidates), |targets|))
    ensures outcome.StrayAnswer? ==>
      var picks := Picks(targets, Ids(candidates), oracle);
      exists k ::
        && IsStray(picks, Ids(candidates), k) && PicksAmong(picks, Ids(candidates), k)
        && outcome.faceId == picks[k].value.faceId && calls == k + 1
    ensures outcome.Marked? ==>
      var picks := Picks(targets, Ids(candidates), oracle);
      && calls == |targets|
      && outcome.matches == FinalMatches(targets, picks)
      && (forall c :: c in outcome.matches ==> c in Ids(candidates) && outcome.matches[c].query in targets)
      && outcome.targetMarks == TargetMarks(targets, LabelMap(targets))
      && outcome.candidateMarks == CandidateMarks(candidates, outcome.matches, LabelMap(targets))
  {
    if candidates == [] {
      return NoFacesFound, 0;
    }
    var candidateIds := Ids(candidates);
    var labels := LabelMap(targets);
    var matches, stray;
    matches, calls, stray := FindMatches(targets, candidateIds, oracle);
    if stray.Some? {
      return StrayAnswer(stray.value), calls;
    }
    ClaimedAmong(targets, Picks(targets, candidateIds, oracle), candidateIds, |targets|);
    var targetMarks := MarkTargets(targets, labels);
    var candidateMarks := MarkCandidates(candidates, matches, labels);
    outcome := Marked(matches, targetMarks, candidateMarks);
  }
}
