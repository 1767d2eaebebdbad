# GoogleVision accessor: response reduction and request building

This project models the decision logic of the `services/GoogleVision`
accessor. The accessor sends an image to a face-detection service. It reduces
the service's answer to one emotion label (joy, sorrow, anger, surprise or
neutral) and to a light command for three fixtures. The model covers two
handlers:

- `filterResponse` (module `Reducer`). It takes a response that is either a
  string or an already-parsed value, and parses the string if needed. It
  reaches `responses[0].faceAnnotations[0]` and scores the four likelihood
  attributes with a fixed table. It chooses a label with a scan loop, builds
  the light command from a fixed hue table, and sends `emotion` and then
  `hueCmd`. It returns its argument.
- the `image` input handler (module `Request`). For a truthy image it builds
  the annotation request and sends it on `body`, then sends `true` on
  `trigger`. For a falsy image it throws and sends nothing.

Module `Js` models the JavaScript values the handlers see: truthiness,
`v.key` and `v[0]`. Some members are definitions without contracts. Their
properties are stated on the members that use them:

- `Js.Nullish`: the values on which property access throws a TypeError
  (GoogleVision.js:114-125).
- `Js.Get`: property access `v.key` (GoogleVision.js:114, 118, 125-126).
- `Js.First`: index access `v[0]` (GoogleVision.js:118-121).
- `Reducer.Parsed`: the parse step (GoogleVision.js:101-112). `Reducer.StringForm`
  and `Reducer.SilentCases` state what it means.
- `Reducer.Scores`: the table score of each attribute (GoogleVision.js:133-142).
- `Reducer.OffDirective` and `Reducer.OnDirective`: one fixture entry of the
  all-off command (GoogleVision.js:151) and of the on command
  (GoogleVision.js:155-157).
- `Reducer.Emissions`: the two sends, `emotion` and then `hueCmd`, for a face
  annotation (GoogleVision.js:150-162). `Reducer.EmitsOnlyForFace` and
  `Reducer.LabelMatchesLights` state what it sends.
- `Request.HasImageSlot`: the shape that the assignment at GoogleVision.js:84
  needs: an object whose `requests` is a non-empty array, with an object
  `requests[0]` whose `image` is an object.

`JSON.parse` is a parameter `parse: string ->
Option<Value>`, where `None` means that the parse threw. Every `send` becomes
an element of a returned sequence of `Event`s.

The scoring and selection loop is a method, `Reducer.ScoreAndSelect`. It
writes the scores into an array in place, like the source. It is proved
against `Reducer.LastAbove`, an independent right-to-left definition of the
choice. `Reducer.FilterResponse` is proved against the specification function
`Reducer.Reduction`, and the lemmas about the emissions are stated on that
function.

**The selection as written.** `maxSoFar` starts at -2 and is never updated
inside the loop. So the code does not pick a strict maximum. It picks the
LAST attribute, in the order joy, sorrow, anger, surprise, whose score is
above -2, and `neutral` if there is none. Two consequences follow. If all four
attributes are VERY_LIKELY, the code sends `surprise`. For UNLIKELY, LIKELY,
UNLIKELY, UNLIKELY it also sends `surprise`, with hue 12750, not `sorrow`.
The name `maxSoFar` (GoogleVision.js:130) suggests a running maximum, where
the best score rises on each improvement and ties go to the earlier
attribute. That reading would give joy and sorrow for these two inputs. The
model follows the code.
The strict-maximum reading is the separate module `Selection`, and
`Selection.CompareWithCode` proves exactly when the two readings agree.

**Assumption.** The neutral test calls `currentEmotion.equals('neutral')`
(GoogleVision.js:153). This is not a standard JavaScript string method. On a
Java-based host it is Java's `String.equals`. The model treats it as string
equality. On a host without `String.equals`, line 153 throws a TypeError.
By then `emotion` has already been sent (line 150), so `hueCmd` is never sent.

## Model

| member | source | states |
|---|---|---|
| `Js.Truthy` | GoogleVision.js:98 | a truthy value is never null or undefined; arrays and objects are always truthy |
| `Reducer.Score` | GoogleVision.js:134-142 | every likelihood scores one of -10, -2, -1, 1, 2, 3; a score exceeds -2 exactly for UNLIKELY, POSSIBLE, LIKELY, VERY_LIKELY (case-sensitive); anything outside the six-word vocabulary, a missing attribute included, scores -10 |
| `Reducer.ScoreIsOrdinal` | GoogleVision.js:134-142 | the scores rise strictly along UNKNOWN, VERY_UNLIKELY, UNLIKELY, POSSIBLE, LIKELY, VERY_LIKELY |
| `Reducer.LastAbove` | GoogleVision.js:130-148 | the selection rule: the chosen index holds a score above the threshold and no later index does; when no score is above it, the result is the length (index 4, neutral, for the four attributes) |
| `Reducer.LastAboveUnique` | GoogleVision.js:130-148 | the selection rule determines a single index |
| `Reducer.NeverChosenAtOrBelow` | GoogleVision.js:144-147 | an attribute scored at or below -2 (VERY_UNLIKELY, UNKNOWN, unrecognised, missing) is never chosen |
| `Reducer.LaterOverrides` | GoogleVision.js:144-147 | of two qualifying attributes the later one wins: the choice is at or after it |
| `Reducer.LabelIndexAgreement` | GoogleVision.js:124-132 | below index 4 the label is `emotionNames[index]`, one of joy, sorrow, anger, surprise; with `Reducer.Label`'s contract it is "neutral" exactly at index 4 |
| `Reducer.ScoreAndSelect` | GoogleVision.js:124-148 | the loop writes each attribute's score into `emotionLikelihood`, and ends with the index chosen by the selection rule and the label that matches it |
| `Reducer.LightCommandShape` | GoogleVision.js:151-158 | the light command has exactly three entries with ids 7, 8, 9; for neutral all are off and have only `id` and `on`; otherwise all are on, with `sat` 255 and the hue of the chosen emotion |
| `Reducer.LightCommandLiteral` | GoogleVision.js:151-157 | the light command equals, fixture by fixture, the two literal commands of the source |
| `Reducer.HueValues` | GoogleVision.js:129 | the hues are joy 25500, sorrow 46920, anger 65280, surprise 12750 |
| `Reducer.Extract` | GoogleVision.js:114-125 | a falsy parsed value or a string (a failed parse) reaches no face; reaching a face or a TypeError needs an object with `responses`; a reached face annotation is not null or undefined |
| `Reducer.Label` | GoogleVision.js:131-146 | the label is one of joy, sorrow, anger, surprise, neutral, and it is "neutral" exactly for index 4 |
| `Reducer.Attributes` | GoogleVision.js:125-126 | four attributes; attribute i is the `<emotionNames[i]>Likelihood` property of the face annotation |
| `Reducer.Decision` | GoogleVision.js:124-148 | the index chosen for a face is at most 4; below 4 its attribute scores above -2, and no later attribute does; it is 4 only when no attribute scores above -2 |
| `Reducer.LightCommand` | GoogleVision.js:151-158 | three fixture objects with ids 7, 8, 9 in order, all on exactly when the index is not 4 (neutral) |
| `Reducer.Reduction` | GoogleVision.js:97-168 | the sends for a response: none or two, and none for a falsy response |
| `Reducer.FilterResponse` | GoogleVision.js:97-168 | the handler returns its argument unchanged, and its sends are exactly the reduction of the response |
| `Reducer.FilterTwice` | GoogleVision.js:124-132 | two calls on the same response send the same events: no state survives a call |
| `Reducer.EmitsOnlyForFace` | GoogleVision.js:150-162 | something is sent exactly when a face annotation is reached; then it is two sends, `emotion` first with one of the five labels, then `hueCmd` |
| `Reducer.SilentCases` | GoogleVision.js:98-118 | nothing is sent for a falsy response, a string that fails to parse, a parsed value without `responses`, or a first response without `faceAnnotations` |
| `Reducer.LabelMatchesLights` | GoogleVision.js:150-158 | the label sent is "neutral" exactly when the light command sent is the all-off one; otherwise the label names the attribute whose hue the fixtures take |
| `Reducer.AttributesOfFace` | GoogleVision.js:125-126 | the four attributes are read in the order joy, sorrow, anger, surprise |
| `Reducer.ExtractOfResponse` | GoogleVision.js:114-121 | worked case: a response holding one image response with one face annotation reaches that face |
| `Reducer.StringForm` | GoogleVision.js:101-105 | a non-empty string that parses to a non-string value is reduced exactly like that value |
| `Reducer.StringFormReducesAlike` | GoogleVision.js:101-105 | worked case: a non-empty string that parses to a one-face response reduces like that response, to the sends for its face |
| `Reducer.FirstOfMany` | GoogleVision.js:114-121 | whatever the lengths of `responses` and `faceAnnotations`, extraction reaches `responses[0].faceAnnotations[0]` |
| `Reducer.AllVeryLikelyChoosesSurprise` | GoogleVision.js:130-148 | four VERY_LIKELY attributes send `surprise` and the surprise lights |
| `Reducer.SorrowMostLikelyChoosesSurprise` | GoogleVision.js:130-148 | UNLIKELY, LIKELY, UNLIKELY, UNLIKELY sends `surprise`, not `sorrow` |
| `Reducer.OnlySorrowChoosesSorrow` | GoogleVision.js:130-158 | for every face annotation in which sorrow is the only attribute scored above -2, `sorrow` is sent with the sorrow lights |
| `Reducer.SorrowOverUnlikelyChoosesSorrow` | GoogleVision.js:130-158 | worked case: VERY_UNLIKELY, LIKELY, VERY_UNLIKELY, UNKNOWN sends `sorrow` and the sorrow lights |
| `Reducer.EmptyFaceIsNeutral` | GoogleVision.js:125-158 | a face annotation with no likelihood attributes sends `neutral` and the all-off light command |
| `Selection.BestFrom` | GoogleVision.js:130-148 | the strict-improvement scan ends on the index it started with or on a later index whose score beats the starting best |
| `Selection.BestFromIsLeftmostMax` | GoogleVision.js:130-148 | the strict-improvement scan ends on the leftmost strict maximum above the threshold, or on "none" |
| `Selection.StrictMax` | GoogleVision.js:130-148 | the strict-maximum reading: the result is above the threshold, no score exceeds it, and every earlier score is strictly smaller; it is "none" only when no score is above the threshold |
| `Selection.CompareWithCode` | GoogleVision.js:130-148 | the strict maximum is never later than the code's choice, and the two agree exactly when nothing qualifies or every score before the code's choice is strictly smaller |
| `Selection.AllVeryLikelyDiffers` | GoogleVision.js:130-148 | on four VERY_LIKELY attributes the code chooses surprise (index 3) and the strict maximum chooses joy (index 0) |
| `Request.AnnotationRequest` | GoogleVision.js:75-84 | the request has a slot at `requests[0].image.content`, and that slot holds the image |
| `Request.SetImageContent` | GoogleVision.js:84 | after the assignment the body still has the image slot and the same top-level keys, and `requests[0].image.content` reads back as the image; nothing else changes: the other top-level values, `requests[1..]`, the keys of `requests[0]` and its values other than `image`, and `image` keeps its keys (with `content` added) and its values other than `content` |
| `Request.PatchedTemplateIsRequest` | GoogleVision.js:75-84 | writing the image into `requests[0].image.content` of the template gives the annotation request for that image |
| `Request.RequestCarriesImage` | GoogleVision.js:75-84 | the request has exactly one sub-request, whose `image.content` is the image and whose only feature is FACE_DETECTION with `maxResults` 1 |
| `Request.HandleImage` | GoogleVision.js:72-91 | a truthy image sends the annotation request on `body` and then `true` on `trigger`; a falsy image throws "GoogleVision: No image." and sends nothing |

## Left out

- Port declarations in `exports.setup` (GoogleVision.js:43-63), `this.extend('net/REST')` and the call to the base component's `initialize`. They register ports with the host and the REST base component, which are not part of this model.
- HTTP transport and the delivery of sends. Sends are a returned event sequence.
- `JSON.parse` is a parameter of the model, and `JSON.stringify` of the request body is not modelled. The `body` event carries the object the handler builds, not its text.
- `error(...)` and `console.log` (GoogleVision.js:107-108, 149). They only log. What the model keeps is their effect: nothing is sent after a failed parse.
- Responses that make the code throw a TypeError. These are a truthy `responses` or `faceAnnotations` whose `[0]` is null or undefined: an empty array, `[null]`, a number, a boolean, or an object without "0". `Reducer.Handled` excludes them in the requires of `Reducer.FilterResponse`. `Reducer.Extract` marks them as `TypeError`, and they send nothing.
- JavaScript numbers are integers in `Js.Value`. NaN and fractions are not modelled; the handlers only compare strings and build integer constants. `Js.Get` sees only an object's own properties, not the built-in properties of strings and arrays (such as `length`). None of the keys the handlers read is such a property.
- `currentEmotion.equals('neutral')` is modelled as string equality (see the assumption above).
- The `key` parameter and the file's header comment (GoogleVision.js:23-32, 49). Neither carries logic. The `annotation` output is declared but never sent by this file.
- The `image` handler reads `this.get('image')`. In the model that value is the argument of `Request.HandleImage`.
