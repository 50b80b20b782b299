# Face identity selection — Dafny model

This project models the identity selection of the face-recognition backend: the
`/face` handler (`reconhecer_rosto` in `backend/main.py`) takes the embeddings of
the faces found in an uploaded image and, for each one, walks the list of enrolled
faces (`banco_embeddings`, pairs of image-file stem and embedding) once, in list
order. It keeps a running best name, starting at `"Desconhecido"`, and a running
best distance, starting at the threshold `0.6`. It adopts an enrolled face only
when that face's distance is strictly below the current best. It appends one
`{nome, distancia}` result per face and returns the results together with the
number of faces (`qtd_rostos_detectados`).

The model has three parts:

- `Matching` (matching.dfy): the data model (`Reference`, and `Match` for a name
  with a distance) and a declarative statement of the selection. `CappedMin` is
  the minimum of the threshold and every distance. `FirstAt` is the earliest
  position at a given distance. `Winner` is the adopted position, if any, and
  `BestMatch` is the result before rounding. `CappedMin`'s body takes the
  minimum step by step, as the loop does, but the contracts of `CappedMin` and
  `FirstAt` describe a minimum and a first position and do not refer to the loop.
- `MatchingLemmas` (matching_lemmas.dfy): what the result means. This covers the
  threshold cut-off, the minimum and the first-seen tie-break.
  `BestMatchStep` is the single loop step that links the declarative selection to
  the running-best loop.
- `FaceHandler` (face_handler.dfy): the handler's two loops as methods.
  `MatchProbe` keeps the running name and distance exactly as lines 58-65 do.
  `Recognize` collects one result per face and the face count. Both are proved
  equal to the declarative selection.

Distances are abstract. The embedding type is a type parameter `E`, and the
Euclidean norm `np.linalg.norm(emb - emb_ref)` is a parameter
`dist: (E, E) -> real`. The selection rule does not depend on how distances are
computed, and it does not even need them to be non-negative.

The handler reports only a name and a distance for each face, with `0.6` for an
unknown face. The model's results carry the best distance before the handler
rounds it to four decimals (backend/main.py:67).

The name is ambiguous in one case. If an enrolled image file is itself named
`Desconhecido.jpeg`, a genuine match with it yields the same name as "no match".
Because of this, the "unknown exactly when nothing is below 0.6" property is
stated unconditionally on the best distance before rounding
(`MatchedIffSomeBelow`). It is stated on the name only for banks in which no
reference carries that name (`UnknownNameIffNoneBelow`). The rounded distance in
the response does not resolve the ambiguity: a match at 0.59996 is reported as
0.6, like an unknown face.

## Model

| member | source | states |
|---|---|---|
| Matching.CappedMin | backend/main.py:59-65 | the value the running best distance ends at is at most 0.6, at most every reference's distance, and is either 0.6 or one of those distances, so it is the minimum of 0.6 and all the distances |
| MatchingLemmas.BestMatchStep | backend/main.py:61-65 | taking one more reference changes the result exactly when that reference's distance is strictly below the current best, and then changes it to that reference's name and distance; otherwise the result is unchanged |
| MatchingLemmas.RunningBestNeverIncreases | backend/main.py:59-65 | after one more reference the best distance is no larger than before and no larger than the new reference's distance |
| MatchingLemmas.BestDistanceIsMinimum | backend/main.py:59-65 | the best distance before rounding is at most 0.6, at most every reference's distance, and equals 0.6 or one of the references' distances |
| MatchingLemmas.MatchedIffSomeBelow | backend/main.py:58-65 | the best distance before rounding is below 0.6 exactly when some reference is strictly closer than 0.6; it is then the name and distance of an actual reference; when no reference is below 0.6 the result is "Desconhecido" at 0.6 |
| MatchingLemmas.UnknownNameIffNoneBelow | backend/main.py:58-65 | when no reference is named "Desconhecido", the selected name is "Desconhecido" exactly when no reference's distance is strictly below 0.6 |
| MatchingLemmas.ThresholdNeverAdopted | backend/main.py:59-63 | a reference at distance 0.6 or more, in particular exactly 0.6, is never the adopted one; a selected name other than "Desconhecido" comes with a best distance, before rounding, strictly below 0.6 |
| MatchingLemmas.WinnerIsEarliestMinimum | backend/main.py:61-65 | the adopted reference is strictly closer than every earlier reference and no farther than any later one |
| MatchingLemmas.FirstSeenTieBreak | backend/main.py:61-63 | of two references at the same distance, the later one in list order is never the adopted one |
| MatchingLemmas.ProbesMatchedIndependently | backend/main.py:57-59 | a face's result depends only on that face's embedding, not on its position or on the other faces in the image |
| FaceHandler.MatchProbe | backend/main.py:58-65 | the running-best loop, started at "Desconhecido" and 0.6 and adopting only strictly smaller distances, ends with exactly the declarative best match; its invariant keeps the running best at most 0.6 and equal to the capped minimum of the references seen so far |
| FaceHandler.Recognize | backend/main.py:55-69 | there is one result per face, in face order, each the declarative best match for that face; the reported face count equals the number of faces; with no enrolled references every face gets "Desconhecido" at 0.6; two equal faces get equal results |

## Left out

- The Euclidean distance computation (`np.linalg.norm`, backend/main.py:62) is a parameter `dist`, because it is floating-point numerics over library arrays.
- Rounding the reported distance to four decimals (`round(float(...), 4)`, backend/main.py:67) is not modelled. Results carry the best distance before rounding, because the rounding is floating-point formatting applied after the selection. After rounding, "below 0.6 exactly when matched" and "at most every distance" no longer hold of the value in the response: a distance in [0.59995, 0.6) is reported as 0.6, and rounding up can exceed the minimum distance.
- Floating-point behaviour is not modelled. Distances are mathematical reals, so NaN and rounding error do not arise.
- The image handling (backend/main.py:41-53) is not modelled: writing the temporary file, decoding and resizing with OpenCV, colour conversion, and face location and encoding with `face_recognition`. These are file I/O and opaque library calls. The model starts from the list of face embeddings.
- Loading the enrolled faces from `known_faces/*.jpeg` at start-up (backend/main.py:26-35) is not modelled, because it is filesystem globbing plus library calls. The model takes `banco_embeddings` as an input sequence of `Reference` values.
- The FastAPI application, CORS set-up and HTTP upload plumbing (backend/main.py:1-19, 38-39) are not modelled, because they are framework configuration.
- Enrolment into MySQL (backend/cadastrar.py) is not modelled, because it is database I/O around library image loading. Its only decisions are "no face found" and "embedding length is not 128".
- The browser client (frontend/src/script.js) and the static file server (frontend/server.js) are not modelled, because they are camera, DOM, timer and HTTP-serving code.
