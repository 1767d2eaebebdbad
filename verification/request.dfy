/** The `image` input handler of the GoogleVision accessor: it builds the
    annotation request for the image and sends it on `body`, then sends
    `true` on `trigger`. The request is sent as the object built; its
    serialisation to text (JSON.stringify) is not part of this model. */
module Request {
  import opened Wrappers
  import opened Js

  /** The single feature asked for: face detection, at most one result. */
  const FaceDetection: Value :=
    Obj(map["type" := Str("FACE_DETECTION"), "maxResults" := Num(1)])

  /** The body the handler starts from: one sub-request whose image content is empty. */
  const Template: Value :=
    Obj(map["requests" := Arr([Obj(map["image" := Obj(map["content" := Str("")]),
                                       "features" := Arr([FaceDetection])])])])

  /** The message thrown when there is no image. */
  const NoImage: string := "GoogleVision: No image."

  /** The annotation request for one image: exactly one sub-request, carrying
      the image as its content and asking for face detection only. */
  function AnnotationRequest(image: Value): (body: Value)
    ensures HasImageSlot(body)
    ensures Get(Get(First(Get(body, "requests")), "image"), "content") == image
  {
    Obj(map["requests" := Arr([Obj(map["image" := Obj(map["content" := image]),
                                       "features" := Arr([FaceDetection])])])])
  }

  /** A body on which `body.requests[0].image.content = ...` can be assigned. */
  predicate HasImageSlot(body: Value) {
    && body.Obj? && "requests" in body.fields
    && body.fields["requests"].Arr? && |body.fields["requests"].items| > 0
    && body.fields["requests"].items[0].Obj?
    && "image" in body.fields["requests"].items[0].fields
    && body.fields["requests"].items[0].fields["image"].Obj?
  }

  /** The assignment `body.requests[0].image.content = image`. */
  function SetImageContent(body: Value, image: Value): (patched: Value)
    requires HasImageSlot(body)
    ensures HasImageSlot(patched)
    ensures patched.fields.Keys == body.fields.Keys
    ensures Get(Get(First(Get(patched, "requests")), "image"), "content") == image
    ensures forall key :: key in body.fields && key != "requests" ==>
      patched.fields[key] == body.fields[key]
    ensures patched.fields["requests"].items[1..] == body.fields["requests"].items[1..]
    ensures
      var request, old0 := patched.fields["requests"].items[0].fields, body.fields["requests"].items[0].fields;
      request.Keys == old0.Keys && forall key :: key in old0 && key != "image" ==> request[key] == old0[key]
    ensures
      var slot := patched.fields["requests"].items[0].fields["image"].fields;
      var oldSlot := body.fields["requests"].items[0].fields["image"].fields;
      slot.Keys == oldSlot.Keys + {"content"} &&
      forall key :: key in oldSlot && key != "content" ==> slot[key] == oldSlot[key]
  {
    var requests := body.fields["requests"].items;
    var request := requests[0].fields;
    var slot := request["image"].fields;
    Obj(body.fields["requests" :=
      Arr([Obj(request["image" := Obj(slot["content" := image])])] + requests[1..])])
  }

  /** Patching the template gives the annotation request for the image. */
  lemma PatchedTemplateIsRequest(image: Value)
    ensures HasImageSlot(Template)
    ensures SetImageContent(Template, image) == AnnotationRequest(image)
  {
    var request := Template.fields["requests"].items[0].fields;
    var patched := request["image" := Obj(request["image"].fields["content" := image])];
    var expected := map["image" := Obj(map["content" := image]), "features" := Arr([FaceDetection])];
    assert request["image"].fields["content" := image] == map["content" := image];
    assert patched.Keys == expected.Keys;
    assert patched == expected;
    assert Template.fields["requests"].items[1..] == [];
    assert [Obj(patched)] + Template.fields["requests"].items[1..] == [Obj(expected)];
    assert Template.fields["requests" := Arr([Obj(expected)])] == AnnotationRequest(image).fields;
  }

  /** Reading the request back: one sub-request, whose `image.content` is
      the image and whose only feature is FACE_DETECTION with maxResults 1. */
  lemma RequestCarriesImage(image: Value)
    ensures
      var requests := Get(AnnotationRequest(image), "requests");
      && requests.Arr? && |requests.items| == 1
      && Get(Get(First(requests), "image"), "content") == image
      && var features := Get(First(requests), "features");
      && features.Arr? && |features.items| == 1
      && Get(First(features), "type") == Str("FACE_DETECTION")
      && Get(First(features), "maxResults") == Num(1)
  {
  }

  /** The handler: a truthy image sends the request on `body`, then `true`
      on `trigger`; a falsy image throws and sends nothing. */
  function HandleImage(image: Value): (r: Result<seq<Event>, string>)
    ensures r.Success? <==> Truthy(image)
    ensures r.Success? ==>
      r.value == [Send("body", AnnotationRequest(image)), Send("trigger", Bool(true))]
    ensures r.Failure? ==> r.error == NoImage
  {
    if Truthy(image) then
      PatchedTemplateIsRequest(image);
      var body := SetImageContent(Template, image);
      Success([Send("body", body), Send("trigger", Bool(true))])
    else
      Failure(NoImage)
  }
}
