# Image-recognition web app: verified model of the serving logic

This project models the part of the image-recognition web app's serving
endpoint (`app.py`) that is logic of its own rather than glue around the
ML, imaging and web libraries:

- **Upload validation** (`Upload`, `upload.dfy`): `allowed_file` accepts a
  file name only if it has a dot and the lower-cased text after the *last*
  dot is one of `png`, `jpg`, `jpeg`, `gif`, `bmp`, `webp`. Python's
  `rsplit('.', 1)` is modelled as `RSplitOnce`, proved to be undone by
  joining the parts with the separator.
- **Prediction ranking** (`Ranking`, `ranking.dfy`): the predicted class is
  NumPy's argmax, the first index of the largest score. Each of the ten
  classes is listed with its score times 100, in class order, by a loop
  (`Rank`). The list is sorted in descending order of confidence by
  Python's stable `sort(reverse=True)`, and its first three entries are
  returned. The sort is modelled as a stable insertion sort
  (`SortDescending`). It is proved to be non-increasing, a permutation and
  stable. It is also proved to be the *only* list with those properties,
  so it stands for Python's sort whatever algorithm that uses. Stability
  is stated as "for every confidence, the entries with that confidence
  keep their order". Argmax and the sort therefore break ties the same
  way, and the first ranked entry is always the predicted class.
- **Model lifecycle and request handling** (`Server`, `server.dfy`): the
  global `model` becomes the field of class `App`. `LoadModel` is the
  lazy load: a loaded model is never reloaded, and a missing artifact or a
  failed load leaves the model unloaded so that the next call tries again.
  `LoadStep` is the specification of one call. `Run` strings calls
  together so that lemmas can speak of a sequence of requests. `Health`
  and `Predict` are the two endpoints that trigger the load. `Validate`
  is the chain of early returns in `predict`: a load failure gives 500
  before any check of the upload, and a missing field, an empty name or a
  bad extension gives 400 whatever the decoding would have given.

Scores are `real`s. Multiplying by 100 preserves their order, and order is
all the ranking depends on. The environment (whether the artifact exists,
what the loader returns, whether the bytes decode, what `model.predict`
returns) is passed in as parameters.

Ties: argmax takes the first maximal index and the sort is stable, so
both resolve a tie toward the lower class index.

A score vector of the wrong length is handled as the code handles it:
- Empty: argmax raises.
- Argmax at index 10 or beyond: indexing the label list raises.
- Fewer than ten scores: the loop raises when it reads past the end.

Each of these reaches the catch-all and gives a 500 (`RankError`). A longer
vector whose argmax lies among the first ten gives a 200, ranked on its
first ten scores.

## Model

| member | source | states |
|---|---|---|
| `Upload.RSplitOnce` | app.py:46 | `rsplit(sep, 1)` gives the whole string when `sep` is absent. Otherwise it gives two parts that rebuild the string around `sep`, and the second part holds no `sep` |
| `Upload.AllowedFile` | app.py:44-46 | an accepted name always contains a dot |
| `Upload.AllowedFileMeaning` | app.py:44-46 | a name is accepted exactly when it has a last dot and the lower-cased text after that dot is in the allow-list of app.py:17 |
| `Upload.NoDotRejected` | app.py:46 | a name without a dot is rejected |
| `Upload.AllowedFileIgnoresCase` | app.py:46 | two names that agree once lower-cased are both accepted or both rejected |
| `Upload.LastSegmentRejects` | app.py:46 | `a.png.exe` is rejected: only the text after the last dot counts |
| `Upload.LastSegmentAccepts` | app.py:46 | `a.exe.png` is accepted: only the text after the last dot counts |
| `Upload.UpperCaseExtensionAccepted` | app.py:46 | `X.PNG` is accepted |
| `Upload.EdgeNames` | app.py:46 | `.png` is accepted and `photo.` is rejected |
| `Ranking.ArgMax` | app.py:126 | the predicted index is the first position of a largest score, and it is the only such position |
| `Ranking.ArgMaxOfPrefix` | app.py:126-136 | when the argmax of the whole vector is among the first ten scores, it is also the argmax of those ten |
| `Ranking.SortDescending` | app.py:139 | the sorted list has the same length, is non-increasing in confidence and is a permutation of its input |
| `Ranking.SortIsStable` | app.py:139 | for every confidence, the sorted list holds the same entries of that confidence in the same order as the input |
| `Ranking.SortDescendingIsTheStableSort` | app.py:139 | any non-increasing list that keeps the order within each confidence is the sorted list |
| `Ranking.SortedHeadIsArgMax` | app.py:126-139 | the first sorted entry is the class at the argmax, so the sort and argmax break ties alike |
| `Ranking.TopOfSorted` | app.py:145 | the first three entries of a sorted permutation come from the input and are sorted, and nothing left out is above any of them |
| `Ranking.RankedHead` | app.py:126-145 | the prediction is the class at the first largest score, its confidence is that score times 100 and no score times 100 exceeds it, and the first of the three ranked entries is that class with that confidence |
| `Ranking.RankedTop` | app.py:131-145 | three entries are returned, non-increasing, all taken from the per-class list, and no class left out has a higher confidence than the last one returned |
| `Ranking.Rank` | app.py:126-145 | the argmax-and-ranking block succeeds exactly on a rankable vector. Then it returns `Ranked(scores)`; otherwise it returns the text of the exception it raises |
| `Server.LoadStep` | app.py:31-42 | a call succeeds exactly when a model is loaded afterwards. A loaded model is kept and reported as already loaded. A failed call changes nothing. A missing artifact fails with the not-found message. A loader exception fails with "Error loading model: " and its text. A fresh load uses the loader's model |
| `Server.LoadedIsFinal` | app.py:34-42 | from a loaded state, every later call returns success with "Model already loaded" and keeps the same model |
| `Server.NoReload` | app.py:31-42 | after the first successful call, every later call succeeds with the same model |
| `Server.RetriedUntilArtifactAppears` | app.py:34-39 | while the artifact is missing, each call fails with the not-found message and the model stays unloaded. The first call that finds a loadable artifact succeeds |
| `Server.Validate` | app.py:84-120 | the request passes exactly when the load succeeded, an `image` field is present, its name is allowed and it decodes. Otherwise the answer is 500 exactly when the load failed, and 400 in every other case |
| `Server.LoadFailureAnswersFirst` | app.py:84-89 | a failed load answers 500 with the loader's message whatever was uploaded |
| `Server.UploadCheckedBeforeDecoding` | app.py:91-110 | a missing field or a disallowed name answers 400 independently of the decode outcome |
| `Server.App.constructor` | app.py:29 | the model starts unloaded |
| `Server.App.LoadModel` | app.py:31-42 | the new model, the success flag and the message are those of `LoadStep` from the old model |
| `Server.App.Health` | app.py:154-161 | the health check performs one load step and reports "healthy" exactly when a model is loaded, with the loader's message |
| `Server.App.Predict` | app.py:79-152 | performs one load step, then answers with the first rejection of `Validate`. If there is none, it answers 500 for an exception in `model.predict` or in the ranking, and otherwise 200 with `Ranked(scores)` |

## Left out

- Flask routing, `jsonify`, `render_template`, CORS, the upload-folder creation and the 16 MiB `MAX_CONTENT_LENGTH` limit are framework and file-system I/O. The index route has no logic.
- `tf.keras.models.load_model` and `model.predict` are foreign calls. Their outcomes (a model or an exception text; a score vector or an exception text) are parameters. The model is an opaque type parameter `M`.
- `preprocess_image` (PIL decode, RGB conversion, LANCZOS resize, division by 255) is library image processing in floating point. It is represented only by its outcome: decoded, or the text of its exception.
- `file.read()` is I/O. The uploaded bytes appear only through the decode outcome.
- Floating point: scores are exact reals. In float32, two different scores can round to the same value after `* 100`. The stable sort would then put the lower class first while argmax picks the larger unscaled score, so the first ranked entry and the prediction could then differ. NaN scores are not modelled. Nothing constrains the scores to sum to 1.
- Lower: folds ASCII letters only, while Python's `str.lower` folds all of Unicode. The only non-ASCII characters that lower-case into ASCII are the Kelvin sign (to `k`) and the dotted capital I (to `i` followed by a combining dot). Neither can turn a rejected extension into one of the allowed ones.
- The unguarded race on the global `model` between concurrent requests is a concurrency concern and is not modelled. Each method call is atomic.
- main.py (training: a declarative layer list and library training loop), predict.py (an interactive script whose argmax is the same as app.py:126-128) and static/script.js (browser UI) are not part of this model.
