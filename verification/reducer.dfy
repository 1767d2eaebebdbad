/** `filterResponse` of the GoogleVision accessor: it reduces a face-detection
    response to an emotion label and a three-fixture light command, and sends
    both. Parsing a string response is a parameter `parse` (JSON.parse: `None`
    where it throws); the sends are returned as a sequence of events. */
module Reducer {
  import opened Wrappers
  import opened Js

  /** Attribute names in scan order; index 4 names no attribute. */
  const EmotionNames: seq<string> := ["joy", "sorrow", "anger", "surprise", "unknown"]

  /** Hue per emotion index; index 4 (no attribute) has hue 0. */
  const EmotionColorMap: seq<int> := [25500, 46920, 65280, 12750, 0]

  /** The index that stands for "no attribute chosen". */
  const NeutralIndex: nat := 4

  /** The initial and only value of `maxSoFar`: a score must exceed it to be chosen. */
  const Threshold: int := -2

  /** The likelihood vocabulary of the face-detection service, least likely first. */
  const Vocabulary: seq<string> :=
    ["UNKNOWN", "VERY_UNLIKELY", "UNLIKELY", "POSSIBLE", "LIKELY", "VERY_LIKELY"]

  /** The fixture identifiers of the light command, in order. */
  const FixtureIds: seq<int> := [7, 8, 9]

  // ---------------------------------------------------------------------
  // Likelihood scores

  /** The `switch` on one likelihood: a case-sensitive match on the string;
      everything else, a missing attribute included, scores -10. */
  function Score(likelihood: Value): (r: int)
    ensures r == -10 || r == -2 || r == -1 || r == 1 || r == 2 || r == 3
    ensures r > Threshold <==>
      likelihood.Str? && likelihood.s in {"UNLIKELY", "POSSIBLE", "LIKELY", "VERY_LIKELY"}
    ensures !(likelihood.Str? && likelihood.s in Vocabulary) ==> r == -10
  {
    if likelihood == Str("UNKNOWN") then -10
    else if likelihood == Str("VERY_UNLIKELY") then -2
    else if likelihood == Str("UNLIKELY") then -1
    else if likelihood == Str("POSSIBLE") then 1
    else if likelihood == Str("LIKELY") then 2
    else if likelihood == Str("VERY_LIKELY") then 3
    else -10
  }

  /** The scores are ordinal: they rise strictly along the vocabulary. */
  lemma ScoreIsOrdinal(i: nat, j: nat)
    requires i < j < |Vocabulary|
    ensures Score(Str(Vocabulary[i])) < Score(Str(Vocabulary[j]))
  {
  }

  /** The scores of a sequence of likelihoods, position by position. */
  function Scores(emotions: seq<Value>): seq<int> {
    seq(|emotions|, i requires 0 <= i < |emotions| => Score(emotions[i]))
  }

  // ---------------------------------------------------------------------
  // Selection

  /** The largest index whose score exceeds `t`, or `|s|` when there is none.
      Defined from the right end, independently of the forward scan. */
  function LastAbove(s: seq<int>, t: int): (k: nat)
    ensures k <= |s|
    ensures k < |s| ==> s[k] > t && forall j :: k < j < |s| ==> s[j] <= t
    ensures k == |s| ==> forall j :: 0 <= j < |s| ==> s[j] <= t
    decreases |s|
  {
    if s == [] then 0
    else if s[|s| - 1] > t then |s| - 1
    else
      var k := LastAbove(s[..|s| - 1], t);
      if k == |s| - 1 then |s| else k
  }

  /** The contract of LastAbove pins its result down. */
  lemma LastAboveUnique(s: seq<int>, t: int, k: nat)
    requires k <= |s|
    requires k < |s| ==> s[k] > t && forall j :: k < j < |s| ==> s[j] <= t
    requires k == |s| ==> forall j :: 0 <= j < |s| ==> s[j] <= t
    ensures k == LastAbove(s, t)
  {
  }

  /** A score that does not exceed the threshold is never chosen. */
  lemma NeverChosenAtOrBelow(s: seq<int>, t: int, i: nat)
    requires i < |s| && s[i] <= t
    ensures LastAbove(s, t) != i
  {
  }

  /** A later qualifying score always overrides an earlier one. */
  lemma LaterOverrides(s: seq<int>, t: int, i: nat, j: nat)
    requires i < j < |s| && s[i] > t && s[j] > t
    ensures LastAbove(s, t) != i && j <= LastAbove(s, t) < |s|
  {
  }

  /** The label for an emotion index: the attribute's name, or "neutral" for index 4. */
  function Label(k: nat): (name: string)
    requires k <= NeutralIndex
    ensures name in {"joy", "sorrow", "anger", "surprise", "neutral"}
    ensures name == "neutral" <==> k == NeutralIndex
  {
    if k == NeutralIndex then "neutral" else EmotionNames[k]
  }

  /** Below index 4 the label is the attribute's name. */
  lemma LabelIndexAgreement(k: nat)
    requires k <= NeutralIndex
    ensures k < NeutralIndex ==> Label(k) == EmotionNames[k] && Label(k) in {"joy", "sorrow", "anger", "surprise"}
  {
  }

  /** The scoring and selection loop. The scores are written into an array in
      place; `maxSoFar` is never reassigned, so each score above -2 replaces
      the choice made so far. */
  method ScoreAndSelect(emotions: seq<Value>)
    returns (emotionLikelihood: seq<int>, currentEmotion: string, currentEmotionIndex: nat)
    requires |emotions| == 4
    ensures emotionLikelihood == Scores(emotions)
    ensures currentEmotionIndex == LastAbove(emotionLikelihood, Threshold)
    ensures currentEmotionIndex <= NeutralIndex && currentEmotion == Label(currentEmotionIndex)
  {
    var likelihood := new int[4](_ => 0);
    var maxSoFar := Threshold;
    currentEmotion := "neutral";
    currentEmotionIndex := NeutralIndex;
    for i := 0 to |emotions|
      invariant forall j :: 0 <= j < i ==> likelihood[j] == Score(emotions[j])
      invariant currentEmotionIndex == NeutralIndex || currentEmotionIndex < i
      invariant currentEmotionIndex < i ==>
        likelihood[currentEmotionIndex] > maxSoFar &&
        forall j :: currentEmotionIndex < j < i ==> likelihood[j] <= maxSoFar
      invariant currentEmotionIndex == NeutralIndex ==>
        forall j :: 0 <= j < i ==> likelihood[j] <= maxSoFar
      invariant currentEmotion == Label(currentEmotionIndex)
    {
      var e := emotions[i];
      if e == Str("UNKNOWN") {
        likelihood[i] := -10;
      } else if e == Str("VERY_UNLIKELY") {
        likelihood[i] := -2;
      } else if e == Str("UNLIKELY") {
        likelihood[i] := -1;
      } else if e == Str("POSSIBLE") {
        likelihood[i] := 1;
      } else if e == Str("LIKELY") {
        likelihood[i] := 2;
      } else if e == Str("VERY_LIKELY") {
        likelihood[i] := 3;
      } else {
        likelihood[i] := -10;
      }
      if likelihood[i] > maxSoFar {
        currentEmotion := EmotionNames[i];
        currentEmotionIndex := i;
      }
    }
    emotionLikelihood := likelihood[..];
    LastAboveUnique(emotionLikelihood, Threshold, currentEmotionIndex);
  }

  // ---------------------------------------------------------------------
  // Light command

  /** A fixture switched off: only `id` and `on`, no hue and no saturation. */
  function OffDirective(id: int): Value {
    Obj(map["id" := Num(id), "on" := Bool(false)])
  }

  /** A fixture switched on with the given hue at full saturation. */
  function OnDirective(id: int, hue: int): Value {
    Obj(map["id" := Num(id), "on" := Bool(true), "hue" := Num(hue), "sat" := Num(255)])
  }

  /** The light command for an emotion index: every fixture off for index 4,
      every fixture on in the emotion's hue otherwise. */
  function LightCommand(k: nat): (r: Value)
    requires k <= NeutralIndex
    ensures r.Arr? && |r.items| == |FixtureIds|
    ensures forall j :: 0 <= j < |r.items| ==>
      r.items[j].Obj? && Get(r.items[j], "id") == Num(FixtureIds[j]) &&
      Get(r.items[j], "on") == Bool(k != NeutralIndex)
  {
    Arr(seq(|FixtureIds|, j requires 0 <= j < |FixtureIds| =>
      if k == NeutralIndex then OffDirective(FixtureIds[j])
      else OnDirective(FixtureIds[j], EmotionColorMap[k])))
  }

  /** The light command has three entries with ids 7, 8, 9; for index 4 they
      are off and carry no hue or saturation, otherwise they are on with
      saturation 255 and the emotion's hue. */
  lemma LightCommandShape(k: nat)
    requires k <= NeutralIndex
    ensures LightCommand(k).Arr? && |LightCommand(k).items| == 3
    ensures forall j :: 0 <= j < 3 ==>
      var d := LightCommand(k).items[j];
      && d.Obj?
      && Get(d, "id") == Num(7 + j)
      && (k == NeutralIndex ==>
            Get(d, "on") == Bool(false) && d.fields.Keys == {"id", "on"})
      && (k < NeutralIndex ==>
            && Get(d, "on") == Bool(true)
            && Get(d, "sat") == Num(255)
            && Get(d, "hue") == Num(EmotionColorMap[k])
            && d.fields.Keys == {"id", "on", "hue", "sat"})
  {
  }

  /** The light command spelled out fixture by fixture. */
  lemma LightCommandLiteral(k: nat)
    requires k <= NeutralIndex
    ensures k == NeutralIndex ==>
      LightCommand(k) == Arr([OffDirective(7), OffDirective(8), OffDirective(9)])
    ensures k < NeutralIndex ==>
      var hue := EmotionColorMap[k];
      LightCommand(k) == Arr([OnDirective(7, hue), OnDirective(8, hue), OnDirective(9, hue)])
  {
  }

  /** The hue of each emotion. */
  lemma HueValues()
    ensures Get(LightCommand(0).items[0], "hue") == Num(25500)
    ensures Get(LightCommand(1).items[0], "hue") == Num(46920)
    ensures Get(LightCommand(2).items[0], "hue") == Num(65280)
    ensures Get(LightCommand(3).items[0], "hue") == Num(12750)
  {
  }

  // ---------------------------------------------------------------------
  // Extraction and the whole reduction

  /** Where extraction of `responses[0].faceAnnotations[0]` ends: no face
      data, a face annotation, or a TypeError from reading a property of
      `undefined` (an empty `responses` or `faceAnnotations`, for one). */
  datatype Extraction = NoFace | Face(annotation: Value) | TypeError

  /** The guards and lookups that lead from the parsed response to the first face annotation. */
  function Extract(parsed: Value): (e: Extraction)
    ensures e.Face? ==> !Nullish(e.annotation)
    ensures !Truthy(parsed) || parsed.Str? ==> e == NoFace
    ensures e != NoFace ==> parsed.Obj? && "responses" in parsed.fields
  {
    if !Truthy(parsed) then NoFace
    else
      var responses := Get(parsed, "responses");
      if !Truthy(responses) then NoFace
      else
        var first := First(responses);
        if Nullish(first) then TypeError
        else
          var faces := Get(first, "faceAnnotations");
          if !Truthy(faces) then NoFace
          else
            var face := First(faces);
            if Nullish(face) then TypeError else Face(face)
  }

  /** The value in `parsed` after the parse step: a string response is
      replaced by its parse, and stays itself when the parse fails. */
  function Parsed(parse: string -> Option<Value>, response: Value): Value {
    if response.Str? then
      match parse(response.s)
      case Some(v) => v
      case None => response
    else response
  }

  /** The responses the code gets through without a TypeError. */
  predicate Handled(parse: string -> Option<Value>, response: Value) {
    Truthy(response) ==> !Extract(Parsed(parse, response)).TypeError?
  }

  /** The four likelihood attributes of a face annotation, in scan order. */
  function Attributes(face: Value): (attributes: seq<Value>)
    requires !Nullish(face)
    ensures |attributes| == |EmotionNames| - 1
    ensures forall i :: 0 <= i < |attributes| ==>
      attributes[i] == Get(face, EmotionNames[i] + "Likelihood")
  {
    assert EmotionNames[0] + "Likelihood" == "joyLikelihood";
    assert EmotionNames[1] + "Likelihood" == "sorrowLikelihood";
    assert EmotionNames[2] + "Likelihood" == "angerLikelihood";
    assert EmotionNames[3] + "Likelihood" == "surpriseLikelihood";
    [Get(face, "joyLikelihood"), Get(face, "sorrowLikelihood"),
     Get(face, "angerLikelihood"), Get(face, "surpriseLikelihood")]
  }

  /** The emotion index chosen for a face annotation. */
  function Decision(face: Value): (k: nat)
    requires !Nullish(face)
    ensures k <= NeutralIndex
    ensures k < NeutralIndex ==> Score(Attributes(face)[k]) > Threshold
    ensures forall j :: k < j < NeutralIndex ==> Score(Attributes(face)[j]) <= Threshold
    ensures k == NeutralIndex ==>
      forall j :: 0 <= j < NeutralIndex ==> Score(Attributes(face)[j]) <= Threshold
  {
    var attributes := Attributes(face);
    var scores := Scores(attributes);
    assert |scores| == NeutralIndex;
    assert forall j :: 0 <= j < NeutralIndex ==> scores[j] == Score(attributes[j]);
    LastAbove(scores, Threshold)
  }

  /** What is sent for a face annotation: the label, then the light command. */
  function Emissions(face: Value): seq<Event>
    requires !Nullish(face)
  {
    var k := Decision(face);
    [Send("emotion", Str(Label(k))), Send("hueCmd", LightCommand(k))]
  }

  /** The events a response gives rise to. */
  function Reduction(parse: string -> Option<Value>, response: Value): (sent: seq<Event>)
    ensures |sent| == 0 || |sent| == 2
    ensures !Truthy(response) ==> sent == []
  {
    if !Truthy(response) then []
    else
      match Extract(Parsed(parse, response))
      case Face(face) => Emissions(face)
      case _ => []
  }

  /** The handler. It returns its argument; the sends are `sent`. */
  method FilterResponse(parse: string -> Option<Value>, response: Value)
    returns (result: Value, sent: seq<Event>)
    requires Handled(parse, response)
    ensures result == response
    ensures sent == Reduction(parse, response)
  {
    sent := [];
    if Truthy(response) {
      var parsed := response;
      if parsed.Str? {
        match parse(response.s)
        case Some(v) => parsed := v;
        case None => // the parse error is only logged
      }
      if Truthy(parsed) && Truthy(Get(parsed, "responses")) {
        var first := First(Get(parsed, "responses"));
        if Truthy(Get(first, "faceAnnotations")) {
          var face := First(Get(first, "faceAnnotations"));
          var emotions := [Get(face, "joyLikelihood"), Get(face, "sorrowLikelihood"),
                           Get(face, "angerLikelihood"), Get(face, "surpriseLikelihood")];
          assert Extract(Parsed(parse, response)) == Face(face);
          var likelihood, currentEmotion, currentEmotionIndex := ScoreAndSelect(emotions);
          LabelIndexAgreement(currentEmotionIndex);
          LightCommandLiteral(currentEmotionIndex);
          sent := sent + [Send("emotion", Str(currentEmotion))];
          var hueCommand := Arr([OffDirective(7), OffDirective(8), OffDirective(9)]);
          var hue := 0;
          if currentEmotion != "neutral" {
            hue := EmotionColorMap[currentEmotionIndex];
            hueCommand := Arr([OnDirective(7, hue), OnDirective(8, hue), OnDirective(9, hue)]);
          }
          sent := sent + [Send("hueCmd", hueCommand)];
        }
      }
    }
    result := response;
  }

  /** Feeding the same response twice sends the same events: the handler
      keeps no state between calls. */
  method FilterTwice(parse: string -> Option<Value>, response: Value)
    returns (first: seq<Event>, second: seq<Event>)
    requires Handled(parse, response)
    ensures first == second
  {
    var r1, r2;
    r1, first := FilterResponse(parse, response);
    r2, second := FilterResponse(parse, response);
  }

  // ---------------------------------------------------------------------
  // Properties of the reduction

  /** Something is sent exactly when a face annotation is reached, and then
      it is two sends: the label on `emotion`, then the light command on `hueCmd`. */
  lemma EmitsOnlyForFace(parse: string -> Option<Value>, response: Value)
    ensures Reduction(parse, response) != [] <==>
      Truthy(response) && Extract(Parsed(parse, response)).Face?
    ensures Reduction(parse, response) != [] ==>
      var sent := Reduction(parse, response);
      && |sent| == 2
      && sent[0].port == "emotion" && sent[1].port == "hueCmd"
      && sent[0].value.Str?
      && sent[0].value.s in {"joy", "sorrow", "anger", "surprise", "neutral"}
  {
  }

  /** The cases in which nothing is sent: a falsy response, a string that
      does not parse, no `responses`, no `faceAnnotations` in the first response. */
  lemma SilentCases(parse: string -> Option<Value>, response: Value)
    ensures !Truthy(response) ==> Reduction(parse, response) == []
    ensures response.Str? && parse(response.s).None? ==> Reduction(parse, response) == []
    ensures
      var parsed := Parsed(parse, response);
      Truthy(parsed) && !Truthy(Get(parsed, "responses")) ==> Reduction(parse, response) == []
    ensures
      var parsed := Parsed(parse, response);
      Truthy(parsed) && Truthy(Get(parsed, "responses")) &&
      !Nullish(First(Get(parsed, "responses"))) &&
      !Truthy(Get(First(Get(parsed, "responses")), "faceAnnotations"))
      ==> Reduction(parse, response) == []
  {
  }

  /** The label sent and the light command sent agree: all fixtures off
      exactly when the label is "neutral", otherwise all on in the hue of the
      attribute the label names. */
  lemma LabelMatchesLights(face: Value)
    requires !Nullish(face)
    ensures
      var sent := Emissions(face);
      var k := Decision(face);
      && (sent[0].value == Str("neutral") <==> sent[1].value == LightCommand(NeutralIndex))
      && (k < NeutralIndex ==>
            sent[0].value == Str(EmotionNames[k]) &&
            Get(sent[1].value.items[0], "hue") == Num(EmotionColorMap[k]))
  {
    var k := Decision(face);
    LightCommandLiteral(k);
    LightCommandLiteral(NeutralIndex);
    if k < NeutralIndex {
      assert "hue" in OnDirective(7, EmotionColorMap[k]).fields && "hue" !in OffDirective(7).fields;
    }
  }

  // ---------------------------------------------------------------------
  // Worked cases

  /** A face annotation with the four given likelihoods. */
  function FaceOf(joy: string, sorrow: string, anger: string, surprise: string): Value {
    Obj(map["joyLikelihood" := Str(joy), "sorrowLikelihood" := Str(sorrow),
            "angerLikelihood" := Str(anger), "surpriseLikelihood" := Str(surprise)])
  }

  /** A response holding one image response with one face annotation. */
  function ResponseOf(face: Value): Value {
    Obj(map["responses" := Arr([Obj(map["faceAnnotations" := Arr([face])])])])
  }

  /** The attributes of a face built by FaceOf are its four likelihoods. */
  lemma AttributesOfFace(joy: string, sorrow: string, anger: string, surprise: string)
    ensures Attributes(FaceOf(joy, sorrow, anger, surprise)) ==
      [Str(joy), Str(sorrow), Str(anger), Str(surprise)]
  {
  }

  /** Extraction of a response built by ResponseOf reaches its face. */
  lemma ExtractOfResponse(face: Value)
    requires !Nullish(face)
    ensures Extract(ResponseOf(face)) == Face(face)
  {
  }

  /** Only `responses[0].faceAnnotations[0]` is read, however many image
      responses and face annotations there are. */
  lemma FirstOfMany(top: map<string, Value>, rs: seq<Value>, m: map<string, Value>, fs: seq<Value>)
    requires "responses" in top && top["responses"] == Arr(rs)
    requires |rs| > 0 && rs[0] == Obj(m)
    requires "faceAnnotations" in m && m["faceAnnotations"] == Arr(fs)
    requires |fs| > 0 && !Nullish(fs[0])
    ensures Extract(Obj(top)) == Face(fs[0])
  {
  }

  /** A non-empty string is reduced exactly like the value it parses to. */
  lemma StringForm(parse: string -> Option<Value>, text: string, v: Value)
    requires text != "" && parse(text) == Some(v) && !v.Str?
    ensures Reduction(parse, Str(text)) == Reduction(parse, v)
  {
  }

  /** An already-parsed response and its (non-empty) string form reduce alike. */
  lemma StringFormReducesAlike(parse: string -> Option<Value>, text: string, face: Value)
    requires text != "" && parse(text) == Some(ResponseOf(face)) && !Nullish(face)
    ensures Reduction(parse, Str(text)) == Reduction(parse, ResponseOf(face)) == Emissions(face)
  {
    ExtractOfResponse(face);
    assert Parsed(parse, Str(text)) == ResponseOf(face);
    assert Parsed(parse, ResponseOf(face)) == ResponseOf(face);
  }

  /** All four attributes VERY_LIKELY: the last one, surprise, is chosen. */
  lemma AllVeryLikelyChoosesSurprise(parse: string -> Option<Value>)
    ensures Reduction(parse, ResponseOf(FaceOf("VERY_LIKELY", "VERY_LIKELY", "VERY_LIKELY", "VERY_LIKELY")))
      == [Send("emotion", Str("surprise")), Send("hueCmd", LightCommand(3))]
  {
  }

  /** UNLIKELY, LIKELY, UNLIKELY, UNLIKELY: every score exceeds -2, so the
      last attribute, surprise, is chosen, not the most likely one. */
  lemma SorrowMostLikelyChoosesSurprise(parse: string -> Option<Value>)
    ensures Reduction(parse, ResponseOf(FaceOf("UNLIKELY", "LIKELY", "UNLIKELY", "UNLIKELY")))
      == [Send("emotion", Str("surprise")), Send("hueCmd", LightCommand(3))]
  {
  }

  /** Whenever sorrow is the only attribute scored above -2: sorrow is
      chosen and the lights take its hue. */
  lemma OnlySorrowChoosesSorrow(parse: string -> Option<Value>, face: Value)
    requires !Nullish(face)
    requires
      var s := Scores(Attributes(face));
      s[1] > Threshold && s[0] <= Threshold && s[2] <= Threshold && s[3] <= Threshold
    ensures Reduction(parse, ResponseOf(face))
      == [Send("emotion", Str("sorrow")), Send("hueCmd", LightCommand(1))]
  {
    ExtractOfResponse(face);
    LastAboveUnique(Scores(Attributes(face)), Threshold, 1);
  }

  /** One such face: VERY_UNLIKELY, LIKELY, VERY_UNLIKELY, UNKNOWN. */
  lemma SorrowOverUnlikelyChoosesSorrow(parse: string -> Option<Value>)
    ensures Reduction(parse, ResponseOf(FaceOf("VERY_UNLIKELY", "LIKELY", "VERY_UNLIKELY", "UNKNOWN")))
      == [Send("emotion", Str("sorrow")), Send("hueCmd", LightCommand(1))]
  {
    var face := FaceOf("VERY_UNLIKELY", "LIKELY", "VERY_UNLIKELY", "UNKNOWN");
    AttributesOfFace("VERY_UNLIKELY", "LIKELY", "VERY_UNLIKELY", "UNKNOWN");
    var s := Scores(Attributes(face));
    assert s[0] == -2 && s[1] == 2 && s[2] == -2 && s[3] == -10;
    OnlySorrowChoosesSorrow(parse, face);
  }

  /** A face with no likelihood attributes at all is neutral and switches every fixture off. */
  lemma EmptyFaceIsNeutral(parse: string -> Option<Value>)
    ensures Reduction(parse, ResponseOf(Obj(map[])))
      == [Send("emotion", Str("neutral")), Send("hueCmd", LightCommand(NeutralIndex))]
  {
  }
}
