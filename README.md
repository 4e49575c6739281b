# ISCC similarity demos — a Dafny model

The ISCC playground's two image-comparison demos (`demos/compare.py` and
`demos/compare2.py`) turn the per-unit distances that `iscc_core.iscc_compare`
reports into approximate cosine similarities, one per ISCC unit, and chart them.
This project models that computation and the glue around it:

- `hamming_to_cosine`: a Hamming distance over `dim` bits mapped to
  `1 - 2·d/dim`;
- `dist_to_sim`: the distance dict rebuilt under title-cased unit labels
  (`"meta_dist"` → `"Meta"`, `"instance_match"` → `"Instance"`). The boolean
  instance match becomes ±1.0;
- `compare` (fixed `dim=64`) and `process_and_compare_images` in `compare.py`;
- the `iscc_compare` guard in `compare2.py`, which returns `None` unless both codes
  are non-empty;
- `rewrite_uri` in `compare2.py`, which maps an uploaded file back to
  `HERE/<sample set>/<file name>`, with `jpeg` rewritten to `jpg`.

Modules:

- `Python` (`python.dfy`) models the built-in `dict` as its item sequence in
  insertion order. Assignment keeps an existing key in place and appends a new
  one; `FromItems` is the dict built by a loop of such assignments.
- `PyStr` (`pystr.dfy`) models `str.split`, `str.title`, `str.replace` and
  `PurePosixPath.name`.
- `Similarity` (`similarity.dfy`) models `hamming_to_cosine` and `dist_to_sim`.
  `DistToSim` is the loop as written, proved equal to the specification
  function `DistToSimSpec`.
- `CompareDemo` (`compare_demo.dfy`) and `Compare2Demo` (`compare2_demo.dfy`)
  model the demo handlers.

Decomposing an ISCC into its units and computing the per-unit Hamming distances
happen inside `iscc_core.iscc_compare`. Their result is an input to this model.

## Model

| member | source | states |
|---|---|---|
| Python.Store | demos/compare2.py:54-56 | `result[label] = x`: replaces the value of an existing key in place or appends a new item, so the dict grows by at most one entry and afterwards holds `(label, x)` |
| Python.StoreKeys | demos/compare2.py:54-56 | `result[label] = x` keeps an existing label at its position and appends a new one at the end |
| Python.StoreEntries | demos/compare2.py:54-56 | after `result[label] = x` every entry is an old entry or the new item |
| Python.StoreGet | demos/compare2.py:54-56 | after `result[label] = x`, reading `label` gives `x` and every other key reads as before |
| Python.FromItems | demos/compare2.py:51-57 | the dict built by the loop never holds a key twice and has at most one entry per item |
| Python.FromItemsKeys | demos/compare2.py:51-57 | the built dict's keys are exactly the keys that were assigned |
| Python.FromItemsOrder | demos/compare2.py:51-57 | keys appear in the order in which they were first assigned |
| Python.FromItemsLastWins | demos/compare2.py:51-57 | each key holds the value of its last assignment |
| Python.FromItemsEntries | demos/compare2.py:51-57 | every entry of the built dict is one of the assigned pairs |
| PyStr.Split | demos/compare2.py:54 | `key.split("_")`: the pieces between separators, scanned from the left, with one more piece than there are separators; there is always at least one piece |
| PyStr.JoinSplit | demos/compare2.py:54 | `sep.join(s.split(sep)) == s`: splitting loses nothing |
| PyStr.SplitJoin | demos/compare2.py:54 | splitting a join of separator-free pieces gives the pieces back |
| PyStr.SplitPiecesFree | demos/compare2.py:54 | no piece of `s.split(sep)` contains `sep` |
| PyStr.SplitHead | demos/compare2.py:54 | `s.split(sep)[0]` is the longest separator-free prefix of `s` |
| PyStr.Title | demos/compare2.py:54 | `str.title()`: a left-to-right scan that upper-cases a letter after a non-letter and lower-cases a letter after a letter; the result has the input's length |
| PyStr.TitleAt | demos/compare2.py:54 | `str.title` upper-cases a letter that follows a non-letter and lower-cases one that follows a letter; other characters are kept |
| PyStr.TitleKeepsLetters | demos/compare2.py:54 | `str.title` changes only letter case |
| PyStr.TitleOfLowerWord | demos/compare2.py:54 | a lower-case word is title-cased by capitalising its first letter |
| PyStr.TitleIdempotent | demos/compare2.py:54 | title-casing a title-cased string changes nothing |
| PyStr.Replace | demos/compare2.py:182 | `s.replace(pat, rep)`: scanning left to right, each non-overlapping occurrence of `pat` becomes `rep`; a replacement no longer than the pattern never makes the string longer |
| PyStr.ReplaceAbsent | demos/compare2.py:182 | `replace` leaves a string without the pattern unchanged |
| PyStr.ReplaceJpegComplete | demos/compare2.py:182 | after `.replace('jpeg', 'jpg')` no `jpeg` is left |
| PyStr.ReplaceJpegIdempotent | demos/compare2.py:182 | applying `.replace('jpeg', 'jpg')` twice is the same as applying it once |
| PyStr.ReplaceJpegSuffix | demos/compare2.py:182 | a name `p + "jpeg"` whose `p` has no `j` becomes `p + "jpg"` |
| PyStr.ReplaceJpegNoSlash | demos/compare2.py:182 | the rewrite adds no `/`, so the name stays one path component |
| PyStr.Name | demos/compare2.py:181-182 | `Path(p).name` contains no `/` and is never `.` |
| PyStr.NameOfJoin | demos/compare2.py:182 | the name of `dir/name` is `name` |
| Similarity.HammingToCosine | demos/compare2.py:60-64 | the similarity `r` satisfies `r·dim = dim − 2d` (the source's `1 - 2d/dim`) |
| Similarity.HammingToCosineEndpoints | demos/compare.py:55-59 | distance 0 gives 1.0, distance `dim` gives −1.0, half of `dim` gives 0.0 |
| Similarity.HammingToCosineRange | demos/compare2.py:62 | a distance within `0..dim` gives a similarity within −1.0..1.0 |
| Similarity.HammingToCosineDecreasing | demos/compare2.py:62 | a larger distance gives a strictly smaller similarity |
| Similarity.HammingToCosineOpposite | demos/compare.py:57 | distances `d` and `dim − d` give opposite similarities |
| Similarity.HammingToCosineAtDefaultDim | demos/compare.py:50 | at `dim=64` the similarity is `1 − d/32` |
| Similarity.Label | demos/compare2.py:54 | `k.split("_")[0].title()`: the key's text before its first `_`, title-cased; never longer than the key |
| Similarity.LabelShape | demos/compare2.py:54 | a unit label is the key's first `_`-piece title-cased: it has the same length and the same letters up to case, and contains no `_` |
| Similarity.LabelOfKey | demos/compare.py:66-68 | a key `head_rest` is labelled `head.title()` |
| Similarity.LabelOfInstanceKey | demos/compare2.py:53-54 | `instance_match` is labelled `Instance` |
| Similarity.LabelOfMetaKey | demos/compare2.py:56 | `meta_dist` is labelled `Meta` |
| Similarity.Convert | demos/compare2.py:53-56 | for `instance_match` the value is 1.0 exactly when the distance is `True` and −1.0 otherwise; any other key gets `hamming_to_cosine(v, dim)` |
| Similarity.DistToSim | demos/compare2.py:50-57 | the loop builds exactly the dict of assignments `label(k) = convert(k, v)` made in item order |
| Similarity.DistToSimLabels | demos/compare.py:62-69 | the result's keys are distinct, are exactly the labels of the input keys in first-seen order, and the result is empty only for empty input |
| Similarity.DistToSimGet | demos/compare2.py:51-57 | reading a label from the result succeeds exactly when it is the label of some key of the distance dict |
| Similarity.DistToSimLastWins | demos/compare2.py:51-57 | when two keys share a label, the later key's similarity is kept |
| Similarity.DistToSimRange | demos/compare.py:65-68 | distances within `0..dim` give similarities within −1.0..1.0 |
| Similarity.DistToSimInstanceEntry | demos/compare.py:65-66 | the `Instance` entry is 1.0 when `instance_match` is `True` and −1.0 otherwise |
| Similarity.DistToSimAllMatch | demos/compare2.py:53-56 | identical codes, meaning all distances 0 and instance match `True`, give similarity 1.0 everywhere |
| CompareDemo.Compare | demos/compare.py:46-52 | the charted data are `dist_to_sim(iscc_compare(a, b), dim=64)` |
| CompareDemo.ProcessAndCompareImages | demos/compare.py:183-200 | unless both files are given it returns `("", None, "", None, None)`; otherwise it returns both generated codes and details and the comparison of the two codes |
| Compare2Demo.IsccCompare | demos/compare2.py:222-230 | the result is `None` exactly when either code is `None` or empty; otherwise it is the 64-bit similarity data of the two codes |
| Compare2Demo.RewriteUri | demos/compare2.py:177-185 | a URI is returned exactly when a non-empty path is given |
| Compare2Demo.RewriteUriShape | demos/compare2.py:180-185 | the URI is the sample-set directory plus one path component that contains no `jpeg` |
| Compare2Demo.RewriteUriNoName | demos/compare2.py:182 | a path with an empty `name`, such as `/`, gives the sample-set directory itself, `HERE/<sample set>` |
| Compare2Demo.RewriteUriIdempotent | demos/compare2.py:177-185 | rewriting a rewritten URI gives it back unchanged |
| Compare2Demo.RewriteUriExample | demos/compare2.py:182 | an uploaded `…/photo.jpeg` becomes `HERE/<sample set>/photo.jpg` |

## Left out

- `similarity_plot` and the Plotly figure are not modelled. `Compare` and `IsccCompare` return the similarity dict that would be charted.
- `iscc_core.iscc_compare` and `generate_iscc_semantic` are calls into code outside this model. They are function parameters, and code generation, thumbnails and metadata are not modelled.
- The Gradio interface, `process_upload`, `explain_iscc` and the event wiring are not modelled. Neither are the logging calls (`log.debug`, `log.info`) nor the SDK option globals.
- HammingToCosine: Python floats are modelled as exact reals. At `dim=64` every result is a multiple of 1/32, so the float is exact there.
- DistToSim: with `dim == 0` and a distance key other than `instance_match`, Python raises `ZeroDivisionError`. The model requires `dim != 0` whenever such a key is present, and `compare` always passes 64.
- DistToSim: `DistValue` covers only integers and booleans. Float distances are not modelled. Neither are `instance_match` values of any other type, which Python maps to −1.0.
- Instance match: `v is True` is modelled as "the value is the boolean `True`". Any other value, including the integer 1, gives −1.0.
- PyStr.TitleAt: `str.title` is modelled over ASCII letters only. Unicode case mapping is not modelled; the distance keys are ASCII.
- Compare2Demo.RewriteUri: `pathlib` normalisation of the joined path is not modelled. `HERE` is a parameter taken as an already-normal absolute path without a trailing slash (so not the root `/`), and the sample set is a relative directory name. An absolute sample set would replace `HERE` in Python and is not modelled.
- `compare.py`'s `hamming_to_cosine` and `dist_to_sim` behave the same as `compare2.py`'s and are modelled once.
