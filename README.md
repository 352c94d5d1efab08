# azface utilities in Dafny

A verified model of the core of `utils.py` in the azface command-line tools. These tools wrap the Azure Face service: they detect faces, describe them, and match the faces of one image against those of another.

The model covers:

- **`azface_similar`**. Each target face, in detection order, asks the service's find-similar call which candidate faces resemble it. Its most confident answer claims that candidate. A candidate already claimed is taken over only by a strictly more confident claim. Each target face is then labelled with its position. A claimed candidate gets the label of the target that holds it; any other candidate gets `?`.
- **`getbox`** and the placement of a label by **`mark_face`**.
- **`load_key`**, which reads the subscription key and endpoint from a key file, together with the text that `save_key` writes.
- **File names**: the prefix part of `get_unique_name`, plus `change_name_hash` and `get_name_hash`.
- **The attribute summaries** `interpret_glasses`, `interpret_emotion` and `interpret_occlusion`.

Modules, one file each:

| file | module | models |
|---|---|---|
| `wrappers.dfy` | `Wrappers` | `Option` |
| `strings.dfy` | `Strings` | The Python string operations the core uses: `split(sep)`, `split()`, `sep.join`, `strip(chars)`, ASCII `lower()`, `startswith` and `str(n)` for naturals. `split(sep)` and `sep.join` are proved inverse, and `str(n)` reads back. `split()` is characterised by how it splits around a white-space character, and it reads back words joined by single blanks. |
| `ranking.dfy` | `Ranking` | `max(seq, key=...)`: the first element of greatest key. |
| `geometry.dfy` | `Geometry` | `getbox`, and where `mark_face` puts the text. |
| `keyfile.dfy` | `KeyFile` | `load_key` as a line loop, its meaning as the replay of per-line effects, and reading back what `save_key` writes. |
| `names.dfy` | `Names` | Unique names and their hash segment. |
| `attributes.dfy` | `Attributes` | The glasses, emotion and occlusion summaries. |
| `similar.dfy` | `Similar` | The matching loop of `azface_similar` and the labels it draws. |

### How `azface_similar` is modelled

The face service is the parameter `oracle`. `Similar.Picks` computes the best answer of each target, which is what `max(similar_faces, key=confidence)` yields.

`Similar.MatchesAfter` folds the claims of the targets over a map. Two lemmas give that fold meaning without reference to how it is computed:

- `Similar.MatchesAfterIsBestClaim`: a candidate is matched exactly when some target names it. Its holder is the first target, in target order, with the greatest confidence among those naming it.
- `Similar.CandidateLabel`: the candidate's label is therefore `?` or that winner's position.

The methods keep the source's loops and are proved equal to these functions.

### The label's x position

`mark_face` puts the label at `x = int(left + (right - left - width) / 2)`, which is `(left + right - width) / 2` truncated toward zero. `Geometry.CentredX` computes that truncation. `Geometry.MarkFace` then keeps the label inside the image: a negative `x` becomes 0, and a label running past the right edge is moved left to end at it.

## Model

| member | source | states |
|---|---|---|
| `Similar.AzfaceSimilar` | utils.py:467-512 | It reports "No faces found" exactly when there are no candidate faces, and it then makes no call. With no candidate faces it reports "No faces found" and makes no call. Otherwise it makes one find-similar call per target until a best answer is not a candidate face; then it fails with that id after exactly that many calls. If no answer is stray, it marks every face. The matches are the greedy claims, held only by target faces and only on candidate ids. Each target is marked with its label, and each candidate with its holder's label or `?`. |
| `Similar.FindMatches` | utils.py:474-487 | The loop calls find-similar once per target. It stops at the first target whose best answer is not a candidate and reports that id. Otherwise the map it builds equals the fold of all claims. |
| `Similar.ClaimBest` | utils.py:483-487 | One pass takes the best answer. If that is not a candidate it is reported as stray. Otherwise it is stored only if the candidate is unclaimed or held with strictly lower confidence. |
| `Similar.Claim` | utils.py:486-487 | A claim adds at most the claimed candidate to the matched ids. |
| `Similar.ClaimAt` | utils.py:486-487 | A claim takes a held candidate over only with strictly greater confidence. An unheld candidate goes to the claiming target. Every other candidate keeps its holder. |
| `Similar.MatchedAtMost` | utils.py:483-487 | Each target claims at most one candidate, so n targets match at most n candidates. |
| `Similar.BestMatch` | utils.py:484 | No answers gives none. Otherwise it returns an answer of greatest confidence, the first such one. |
| `Ranking.FirstMax` | utils.py:417 | Python's `max` with a key returns an element of greatest key, and no earlier element has that key. |
| `Similar.MatchesAfterIsBestClaim` | utils.py:474-487 | After all claims, a candidate is matched iff some target's best answer names it. Its holder is the most confident such target, the earliest on a tie, stored with that target's confidence. |
| `Similar.MatchedIffNamed` | utils.py:483-487 | After the first n targets, a candidate is a key iff one of those targets names it. |
| `Similar.HeldByWinner` | utils.py:486-487 | After the first n targets, a matched candidate is held by the target with the greatest confidence among those naming it, the earliest on a tie. A later claim takes over only when it is strictly more confident. |
| `Similar.HoldersAreTargets` | utils.py:487 | Every holder is one of the targets that have claimed so far. |
| `Similar.ClaimedAmong` | utils.py:485-487 | Only ids named by some best answer become keys. |
| `Similar.AnswersGivePicks` | utils.py:479-485 | If the service answers only with candidate ids, every best answer is a candidate, so the lookup never fails. |
| `Similar.NoAnswersNoMatches` | utils.py:483 | If find-similar never answers, nothing is matched. |
| `Similar.LabelMap` | utils.py:471 | The label map's keys are exactly the target ids. |
| `Similar.LabelOfLast` | utils.py:471 | An id is labelled with the position of the last target carrying it, because later entries of the comprehension overwrite earlier ones. |
| `Similar.TargetLabels` | utils.py:494-495 | With distinct target ids, target i is labelled `str(i)` and no two targets share a label. |
| `Similar.CandidateLabel` | utils.py:497-501 | With distinct target ids, a candidate is labelled `?` iff no target names it. Otherwise its label is the position of the winning target. |
| `Similar.MarkTargets` | utils.py:494-495 | The loop marks each target's box with its label, in order. |
| `Similar.MarkCandidates` | utils.py:497-501 | The loop marks each candidate's box with its holder's label, or `?`, in order. |
| `Geometry.GetBox` | utils.py:315-323 | The box keeps the rectangle's left and top, and spans its width and height. A rectangle of non-negative size gives an ordered box. |
| `Geometry.TruncHalf` | utils.py:350 | `int(a / 2)` truncates toward zero: the remainder is 0 or 1 with the sign of `a`. |
| `Geometry.MarkFace` | utils.py:337-356 | No text means nothing is written. The label goes above the box when it fits; otherwise below it when it fits above the bottom edge; otherwise just inside the top. It is centred, then clamped. When the text is no wider than the image it lies inside it. When it is not clamped it is centred to within one pixel. |
| `KeyFile.LoadKey` | utils.py:91-115 | The loop over the lines yields the replay of the lines' effects. |
| `KeyFile.ReplayIsLastSetting` | utils.py:98-113 | A later line overrides an earlier one. A field stays `None` iff no line sets it; otherwise it holds the value of the last line that sets it. |
| `KeyFile.LineEffect` | utils.py:99-113 | A value a line sets never begins or ends with a quote, blank or tab. |
| `KeyFile.Universal` | utils.py:97-98 | Text mode reads `\r\n` and a lone `\r` as `\n`. What is read holds no `\r`; a text without `\r` reads unchanged. |
| `KeyFile.CommentLineIgnored` | utils.py:108 | A line starting with `#` changes nothing, even one holding a single `=`. |
| `KeyFile.SavedLineEffect` | utils.py:99-107 | A `key = v` or `endpoint = v` line sets that field to `v` with its padding stripped. |
| `KeyFile.SavedTextLines` | utils.py:122 | `save_key`'s text, with values free of line ends, reads back as exactly its two lines. |
| `KeyFile.SaveThenLoad` | utils.py:91-122 | Loading what `save_key` wrote gives back the same key and endpoint. |
| `Names.NormalizePrefix` | utils.py:146 | A normalised prefix holds no white space. No prefix gives `temp`. |
| `Names.NormalizeJoinedWords` | utils.py:146 | Words joined by single blanks come back joined by `_`. |
| `Names.UniqueName` | utils.py:143-148 | With a number free of `_`, `get_name_hash` of the name is that number. |
| `Names.ChangeNameHash` | utils.py:151-156 | The result is the name with its hash, as `get_name_hash` reads it, replaced by the digest. |
| `Names.GetNameHash` | utils.py:159-160 | The hash is the longest suffix free of `_`: it is the whole name or it follows a `_`. |
| `Names.NormalizeIdempotent` | utils.py:146 | Normalising a normalised prefix changes nothing. |
| `Names.ChangeNameHashSegments` | utils.py:151-156 | Changing the hash replaces only the last `_` segment. |
| `Names.GetChangedNameHash` | utils.py:151-160 | `get_name_hash` reads back the digest that `change_name_hash` wrote. |
| `Names.ChangeNameHashKeepsStem` | utils.py:151-160 | In `stem_number`, the number is the hash, and changing it keeps the stem, `_` characters included. |
| `Names.UniqueNameRehash` | utils.py:143-169 | Behind any directory, the uuid of a unique name is its hash, and replacing it with the digest gives the unique name with the digest. |
| `Attributes.InterpretGlasses` | utils.py:409-413 | The summary is "No glasses" exactly for `noGlasses`; otherwise it is "Glasses: " followed by the value. |
| `Attributes.InterpretGlassesInjective` | utils.py:409-413 | Different glasses values give different summaries. |
| `Attributes.InterpretEmotion` | utils.py:416-418 | The summary names an emotion of greatest intensity, the first such one, with a missing value counted as 0. |
| `Attributes.Occluded` | utils.py:422-425 | At most one name is listed per attribute. |
| `Attributes.OccludedMembers` | utils.py:422-425 | A region is listed iff one of its attributes is true. |
| `Attributes.OccludedEmpty` | utils.py:422-426 | Nothing is listed iff no region is occluded. |
| `Attributes.InterpretOcclusion` | utils.py:421-429 | With no occluded region the result is "No occlusion". Otherwise it is "Occlusion: " followed by the occluded regions in order, joined by ", ". |
| `Strings.JoinSplit` | utils.py:154-156 | Splitting at a character and joining with it gives back the string. |
| `Strings.SplitJoin` | utils.py:154-156 | Joining parts with no separator in them and splitting at it gives back the parts. |
| `Strings.Words` | utils.py:146 | `split()` gives nonempty words with no white space in them. |
| `Strings.WordsAround` | utils.py:146 | `split()` of a text with a white-space character in it gives the words before it, then the words after it. |
| `Strings.WordsOfJoin` | utils.py:146 | `split()` of nonempty blank-free words joined by single blanks gives back the words. |
| `Strings.ParseNatToString` | utils.py:471 | `str(i)` of a natural reads back as `i`. |
| `Strings.NatToStringInjective` | utils.py:471 | Different positions give different labels. |

## Left out

- The face service (`detect`, `find_similar`), image reading, OpenCV drawing, matplotlib windows and all `print` reporting are left out. They appear only as the `oracle` parameter, as inputs (text metrics, image size), and as the marks that would be drawn.
- `mark_face` also draws the face rectangle and calls `getTextSize` before testing `text`. Neither is modelled; in `azface_similar` the text is always a string.
- `is_url`, `get_key`, `download_img`, `get_hexdigest`, `replace_uuid_with_digest`'s file rename and `save_key`'s file write are left out because they are I/O. The file text `save_key` writes is modelled by `KeyFile.SavedText`.
- Randomness and hashing are left out: the uuid and the md5 digest are passed in as strings.
- Confidences and intensities are exact reals. Floating-point rounding and NaN (which `max` would treat specially) are not modelled.
- Geometry.MarkFace: `int()` of the float quotient is modelled exactly, which is what Python computes while pixel values stay far below 2^53.
- `interpret_emotion` and `interpret_occlusion` take the attribute lists `vars()` would give, with values already reduced to numbers or booleans. Other attributes (such as a falsy empty dictionary) count as a missing value or as false. `max` of no attributes raises, so Attributes.InterpretEmotion requires at least one attribute.
- `Strings.Lower` lowers ASCII letters only. `Strings.Words` splits at Python's white-space characters and does no other Unicode processing.
- Service errors raised by the remote calls are not modelled.
- KeyFile.SaveThenLoad: round-tripping is proved only for values without `=`, `\n` or `\r` (carriage return), and without quotes, blanks or tabs at their ends. A value holding `\r` is read back as two lines, since text mode ends a line at a lone `\r`. A value holding `=` makes the saved line split into three parts, and `load_key` then reads the whole line as a bare key.
- Similar.CandidateLabel and Similar.TargetLabels assume distinct target ids, as the service assigns them. With repeated ids, `Similar.LabelOfLast` still gives the label of the last target carrying the id.
