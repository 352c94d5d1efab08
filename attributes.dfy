/**
 * The one-line summaries of a face's attributes (`interpret_glasses`,
 * `interpret_emotion`, `interpret_occlusion`, utils.py). The emotion and the
 * occlusion attribute objects are modelled by their attributes in the order
 * `vars()` lists them: a name and a value each.
 */
module Attributes {
  import opened Wrappers
  import opened Strings
  import opened Ranking

  datatype Attr<T> = Attr(name: string, value: T)

  lemma GlassesSummaryIsNotNone(g: string)
    ensures "Glasses: " + g != "No glasses"
  {
    assert ("Glasses: " + g)[0] == 'G';
  }

  /**
   * The glasses summary: `No glasses` exactly for the service's `noGlasses`
   * value, and otherwise `Glasses: ` followed by the value.
   */
  function InterpretGlasses(glasses: string): (r: string)
    ensures r == "No glasses" <==> glasses == "noGlasses"
    ensures glasses != "noGlasses" ==> |r| >= 9 && r[..9] == "Glasses: " && r[9..] == glasses
  {
    GlassesSummaryIsNotNone(glasses);
    if glasses != "noGlasses" then "Glasses: " + glasses else "No glasses"
  }

  /** Each glasses value has its own summary, so the summary tells what the service said. */
  lemma InterpretGlassesInjective(g1: string, g2: string)
    requires InterpretGlasses(g1) == InterpretGlasses(g2)
    ensures g1 == g2
  {
    var prefix := "Glasses: ";
    GlassesSummaryIsNotNone(g1);
    GlassesSummaryIsNotNone(g2);
    if g1 != "noGlasses" && g2 != "noGlasses" {
      assert (prefix + g1)[|prefix|..] == g1;
      assert (prefix + g2)[|prefix|..] == g2;
    }
  }

  /** The key `interpret_emotion` ranks by: the intensity, with a missing or zero value as 0. */
  function Intensity(a: Attr<Option<real>>): real
  {
    match a.value
    case None => 0.0
    case Some(v) => v
  }

  /**
   * The emotion summary names the first emotion of greatest intensity, in the
   * order the attributes are listed; `max` of no attributes raises, hence the requires.
   */
  function InterpretEmotion(emotion: seq<Attr<Option<real>>>): (r: string)
    requires |emotion| > 0
    ensures exists k ::
              && 0 <= k < |emotion| && r == "Emotion: " + emotion[k].name
              && (forall j :: 0 <= j < |emotion| ==> Intensity(emotion[j]) <= Intensity(emotion[k]))
              && (forall j :: 0 <= j < k ==> Intensity(emotion[j]) < Intensity(emotion[k]))
  {
    var k := FirstMax(emotion, Intensity);
    "Emotion: " + emotion[k].name
  }

  /** Names of the occluded regions (those with a true value), in their listed order; at most one per attribute. */
  function Occluded(occlusion: seq<Attr<bool>>): (names: seq<string>)
    ensures |names| <= |occlusion|
  {
    if |occlusion| == 0 then []
    else
      var last := occlusion[|occlusion| - 1];
      Occluded(occlusion[..|occlusion| - 1]) + (if last.value then [last.name] else [])
  }

  /** A region's name is listed exactly when some attribute of that name is true. */
  lemma {:induction false} OccludedMembers(occlusion: seq<Attr<bool>>, name: string)
    ensures name in Occluded(occlusion) <==>
      exists i :: 0 <= i < |occlusion| && occlusion[i].value && occlusion[i].name == name
  {
    if |occlusion| > 0 {
      var n := |occlusion| - 1;
      OccludedMembers(occlusion[..n], name);
      assert forall i :: 0 <= i < n ==> occlusion[..n][i] == occlusion[i];
    }
  }

  /** Nothing is listed exactly when no region is occluded. */
  lemma {:induction false} OccludedEmpty(occlusion: seq<Attr<bool>>)
    ensures Occluded(occlusion) == [] <==> forall i :: 0 <= i < |occlusion| ==> !occlusion[i].value
  {
    if |occlusion| > 0 {
      var n := |occlusion| - 1;
      OccludedEmpty(occlusion[..n]);
      assert forall i :: 0 <= i < n ==> occlusion[..n][i] == occlusion[i];
    }
  }

  /** `interpret_occlusion`: collect the occluded regions, then summarise them. */
  method InterpretOcclusion(occlusion: seq<Attr<bool>>) returns (r: string)
    ensures (forall i :: 0 <= i < |occlusion| ==> !occlusion[i].value) ==> r == "No occlusion"
    ensures (exists i :: 0 <= i < |occlusion| && occlusion[i].value) ==>
      r == "Occlusion: " + Join(Occluded(occlusion), ", ")
  {
    var res: seq<string> := [];
    for n := 0 to |occlusion|
      invariant res == Occluded(occlusion[..n])
    {
      assert occlusion[..n + 1][..n] == occlusion[..n];
      if occlusion[n].value {
        res := res + [occlusion[n].name];
      }
    }
    assert occlusion[..|occlusion|] == occlusion;
    OccludedEmpty(occlusion);
    if res != [] {
      r := "Occlusion: " + Join(res, ", ");
    } else {
      r := "No occlusion";
    }
  }
}
