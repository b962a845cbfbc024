# Fracture detector core, modelled in Dafny

This project models the logic of an Android application that finds bone
fractures in X-ray images with an on-device YOLO model. The parts modelled
are the ones that compute something from data.

- **Post-processing of the model output** (`Detector.kt`, `OfflineDetector2.kt`).
  - `bestBox` decodes the flat `[1, numChannel, numElements]` tensor into
    candidate boxes. Per position it picks the best class score, applies the
    confidence threshold, looks up the class label, derives the corners from
    the centre form and checks that they lie in the unit square.
  - `applyNMS` does greedy non-maximum suppression across classes.
  - `Detector` uses thresholds 0.15/0.15, a priority queue, and keeps a box
    while its IoU with the selected one is *below* the threshold.
  - `OfflineDetector2` uses thresholds 0.2/0.5, a stable sort, removes a box
    once its IoU *reaches* the threshold, and reads the box height from the
    width channel.
- **The username screen** (`UsernameViewModel.kt`): the validator, the two
  actions and the stored name, as a state machine with an invariant.
- **The two IPv4 validators**: the split-and-parse one of `helpers.kt` and
  the regular expression one of `MyViewModel.kt`. The regular expression is
  proved strictly stricter than the parser.
- **The guards of `predictOnline`** (`MyViewModel.kt`): which message is
  shown and when a request is launched.
- **The report** (`PdfUtils.kt`): the confidence uplift, the percentage
  shown, and the greedy word wrap of `splitTextIntoLines`.

Modules, one per file:

- `Wrappers`: `Option`.
- `Text`: literal `split` and `join` on one character.
- `Boxes`: the box record; IoU with IEEE division by zero made explicit.
- `Decode`: `bestBox`.
- `Nms`: both suppression loops.
- `Detectors`: the two detectors.
- `Quirks`: concrete inputs on which the detectors behave unexpectedly.
- `Ipv4`: both address validators.
- `Username`: the username screen.
- `PredictOnline`: the `predictOnline` guards.
- `Report`: the PDF report's computations.

Float32 values are modelled as reals. One IEEE behaviour that changes a
result is modelled: division by zero in IoU. Two zero-area boxes give
`0/0 = NaN`, and both `<` and `>=` are false on NaN. The `Quotient` datatype
models it. As a result the two NMS rules disagree on such pairs
(`Quirks.NaNSplitsTheRules`). NaN or infinite values in the tensor itself
are not modelled (see "Left out").

The model follows what the code checks, not what one might expect of it:

- One would expect a decoded box to have `x1 <= x2` and `y1 <= y2`. The
  code only checks that each corner lies in `[0, 1]`. A negative width
  from the model therefore gives a box with reversed corners
  (`Quirks.ReversedCornersAccepted`).
- The overlap bounds are therefore proved only for boxes with non-negative
  width and height (`Decode.CandidateConsistent`, `Boxes.IoUBounded`).

Source paths in the table below are relative to the repository root.

## Model

| member | source | states |
|---|---|---|
| Boxes.Divide | app/src/main/java/com/engineerfred/finalyearproject/data/local/Detector.kt:173 | Float division: finite exactly when the denominator is non-zero, and then the exact quotient; over zero, a positive numerator gives +Infinity, a negative one -Infinity and zero NaN |
| Boxes.Area | app/src/main/java/com/engineerfred/finalyearproject/data/local/Detector.kt:171-172 | the area comes from the stored width and height, not the corners; its meaning is carried by Boxes.IntersectionWithin |
| Boxes.BelowIsNotAtLeast | app/src/main/java/com/engineerfred/finalyearproject/data/local/OfflineDetector2.kt:157 | "keep if iou < t" and "remove if iou >= t" are complements on every IoU except NaN, where both comparisons are false |
| Boxes.Overlap | app/src/main/java/com/engineerfred/finalyearproject/data/local/Detector.kt:166-170 | the shared length of two intervals is non-negative and no longer than either interval |
| Boxes.Intersection | app/src/main/java/com/engineerfred/finalyearproject/data/local/Detector.kt:170 | the intersection area is never negative |
| Boxes.IoU | app/src/main/java/com/engineerfred/finalyearproject/data/local/Detector.kt:165-174 | IoU is an ordinary number exactly when area1 + area2 - intersection is non-zero |
| Boxes.IoUSymmetric | app/src/main/java/com/engineerfred/finalyearproject/data/local/Detector.kt:165-174 | IoU does not depend on the order of the two boxes |
| Boxes.IntersectionWithin | app/src/main/java/com/engineerfred/finalyearproject/data/local/Detector.kt:165-172 | for boxes with ordered corners that agree with w and h, the intersection is no larger than either area |
| Boxes.IoUBounded | app/src/main/java/com/engineerfred/finalyearproject/data/local/Detector.kt:165-174 | for such boxes IoU is NaN exactly when both areas are zero, and otherwise lies in [0, 1] |
| Boxes.FlatPairIsNaN | app/src/main/java/com/engineerfred/finalyearproject/data/local/OfflineDetector2.kt:166-175 | two such boxes that each have zero width or height have NaN IoU |
| Boxes.IoUSelf | app/src/main/java/com/engineerfred/finalyearproject/data/local/Detector.kt:157 | a box with positive area has IoU exactly 1 with itself, so an exact duplicate of a selected box is always suppressed |
| Decode.IndexInBounds | app/src/main/java/com/engineerfred/finalyearproject/data/local/Detector.kt:107-114 | the flat index c + numElements * j of channel j at position c lies inside a buffer of numChannel * numElements values |
| Decode.Scan | app/src/main/java/com/engineerfred/finalyearproject/data/local/Detector.kt:106-115 | the class loop ends with the maximal score of channels 4.. and the lowest channel reaching it, or with -1/-1 when no score exceeds -1 |
| Decode.BestClass | app/src/main/java/com/engineerfred/finalyearproject/data/local/Detector.kt:104-115 | the winning class index is -1 or a channel whose score bounds every class score and strictly beats every earlier one; with no class channels it is -1 with score -1 |
| Decode.DecodeAt | app/src/main/java/com/engineerfred/finalyearproject/data/local/Detector.kt:116-142 | a position yields a box exactly when its best score is above the threshold, its class has a label and all four corners lie in [0, 1]; the box carries that position's centre, width, configured height channel, best score and label |
| Decode.BoxAt | app/src/main/java/com/engineerfred/finalyearproject/data/local/Detector.kt:123-130 | the centre form read from channels 0, 1, 2 and the configured height channel, with corners half a width and height either side; its meaning is carried by Decode.DecodeAt and Decode.CandidateConsistent |
| Decode.DecodeUpTo | app/src/main/java/com/engineerfred/finalyearproject/data/local/Detector.kt:103-144 | the first k positions yield at most k candidates, each satisfying the candidate conditions; with height read from the width channel every box is square |
| Decode.DecodeAll | app/src/main/java/com/engineerfred/finalyearproject/data/local/Detector.kt:102-144 | the whole scan yields at most numElements candidates, none when there are no positions or no class channels |
| Decode.DecodeUpToExactly | app/src/main/java/com/engineerfred/finalyearproject/data/local/Detector.kt:103-144 | a box is in the decoded list if and only if some scanned position yields it |
| Decode.DecodedFromPosition | app/src/main/java/com/engineerfred/finalyearproject/data/local/Detector.kt:103-144 | every decoded box comes from a position of the tensor |
| Decode.ThresholdExclusive | app/src/main/java/com/engineerfred/finalyearproject/data/local/Detector.kt:116 | a position whose scores are all at most the threshold yields nothing; the comparison is strict |
| Decode.UnlabelledClassDropped | app/src/main/java/com/engineerfred/finalyearproject/data/local/Detector.kt:118-122 | a position whose best class has no label is skipped, whatever its score |
| Decode.CandidateConsistent | app/src/main/java/com/engineerfred/finalyearproject/data/local/Detector.kt:127-134 | a candidate with non-negative width and height has ordered corners in the unit square that agree with w and h |
| Nms.SpreadKeepBelow | app/src/main/java/com/engineerfred/finalyearproject/data/local/Detector.kt:157 | under the keep-if-below rule, non-suppressing boxes have pairwise IoU below the threshold |
| Nms.SpreadRemoveAtLeast | app/src/main/java/com/engineerfred/finalyearproject/data/local/OfflineDetector2.kt:157 | under the remove-if-at-least rule, no two non-suppressing boxes reach the threshold |
| Nms.FirstMax | app/src/main/java/com/engineerfred/finalyearproject/data/local/Detector.kt:150-154 | the polled box has the highest confidence, and every box before it has strictly less |
| Nms.Without | app/src/main/java/com/engineerfred/finalyearproject/data/local/Detector.kt:154 | polling removes exactly one occurrence of the polled box |
| Nms.Survivors | app/src/main/java/com/engineerfred/finalyearproject/data/local/Detector.kt:157-159 | a box remains exactly when it was there and the selected box does not suppress it |
| Nms.SurvivorsDescending | app/src/main/java/com/engineerfred/finalyearproject/data/local/OfflineDetector2.kt:153-160 | removing boxes from a list in descending order keeps it in descending order |
| Nms.Greedy | app/src/main/java/com/engineerfred/finalyearproject/data/local/Detector.kt:149-163 | the selection is drawn from the input, is no longer, and is empty only for empty input |
| Nms.GreedyDescending | app/src/main/java/com/engineerfred/finalyearproject/data/local/Detector.kt:153-160 | boxes are selected in non-increasing confidence |
| Nms.GreedySpread | app/src/main/java/com/engineerfred/finalyearproject/data/local/Detector.kt:153-160 | no selected box suppresses a box selected after it |
| Nms.GreedyFirstIsMax | app/src/main/java/com/engineerfred/finalyearproject/data/local/Detector.kt:150-155 | the first selected box has the highest confidence of the whole input |
| Nms.GreedyCovers | app/src/main/java/com/engineerfred/finalyearproject/data/local/Detector.kt:153-160 | every input box is selected, or suppressed by a selected box of at least its confidence |
| Nms.SortedGreedyCovers | app/src/main/java/com/engineerfred/finalyearproject/data/local/OfflineDetector2.kt:144-161 | after sorting, every input box is selected, or suppressed by a selected box of at least its confidence |
| Nms.GreedyFixpoint | app/src/main/java/com/engineerfred/finalyearproject/data/local/Detector.kt:153-160 | a descending list in which nothing suppresses anything passes through unchanged, when equal confidences are polled first in list order (see Left out) |
| Nms.GreedyIdempotent | app/src/main/java/com/engineerfred/finalyearproject/data/local/Detector.kt:149-163 | suppressing the selection again gives the selection, when equal confidences are polled first in list order (see Left out) |
| Nms.GreedySorted | app/src/main/java/com/engineerfred/finalyearproject/data/local/OfflineDetector2.kt:148-161 | the sorted-list loop selects from its input, no more boxes than it has, none only for empty input |
| Nms.SortedIsGreedy | app/src/main/java/com/engineerfred/finalyearproject/data/local/OfflineDetector2.kt:144-164 | on a descending list the sorted-list loop and the priority-queue loop select the same boxes, when the queue polls equal confidences first in list order (see Left out) |
| Nms.GreedySortedFixpoint | app/src/main/java/com/engineerfred/finalyearproject/data/local/OfflineDetector2.kt:148-161 | a list in which no box suppresses a later one passes through the sorted-list loop unchanged |
| Nms.GreedySortedSubsequence | app/src/main/java/com/engineerfred/finalyearproject/data/local/OfflineDetector2.kt:148-161 | the sorted-list loop selects boxes in the order the list holds them |
| Nms.SurvivorsSubsequence | app/src/main/java/com/engineerfred/finalyearproject/data/local/OfflineDetector2.kt:153-160 | iterator removal keeps the remaining boxes in their order |
| Nms.Insert | app/src/main/java/com/engineerfred/finalyearproject/data/local/OfflineDetector2.kt:145 | inserting adds exactly the one box |
| Nms.InsertDescending | app/src/main/java/com/engineerfred/finalyearproject/data/local/OfflineDetector2.kt:145 | inserting into a descending list keeps it descending |
| Nms.SortDescending | app/src/main/java/com/engineerfred/finalyearproject/data/local/OfflineDetector2.kt:145 | `sortedByDescending` returns a permutation of its input in non-increasing confidence |
| Nms.InsertStable | app/src/main/java/com/engineerfred/finalyearproject/data/local/OfflineDetector2.kt:145 | among the boxes of one confidence, the inserted box comes before those already in the list, so inserting from the back keeps input order |
| Nms.SortStable | app/src/main/java/com/engineerfred/finalyearproject/data/local/OfflineDetector2.kt:145 | the sort is stable: boxes of equal confidence keep their input order |
| Nms.SortSorted | app/src/main/java/com/engineerfred/finalyearproject/data/local/OfflineDetector2.kt:145 | a list already in descending order is left as it is |
| Detectors.Degenerate | app/src/main/java/com/engineerfred/finalyearproject/data/local/Detector.kt:76-78 | the guard: no interpreter or a zero shape value; what it does to the result is stated by Detectors.DetectorDetect and Detectors.OfflineDetect |
| Detectors.DetectorDetect | app/src/main/java/com/engineerfred/finalyearproject/data/local/Detector.kt:73-99 | no interpreter or a zero shape value gives no boxes; otherwise the result is drawn from the candidates, is empty only when they are, is in descending confidence, and has pairwise IoU below 0.15 |
| Detectors.OfflineDetect | app/src/main/java/com/engineerfred/finalyearproject/data/local/OfflineDetector2.kt:71-93 | the same guards; the result is drawn from the candidates, is empty only when they are, is descending, has square boxes, and no pair reaches IoU 0.5 |
| Detectors.CorrectedOfflineDetect | app/src/main/java/com/engineerfred/finalyearproject/data/local/OfflineDetector2.kt:118-121 | with height read from channel 3: the same guarantees, for candidates carrying their own height |
| Detectors.DetectorFirstIsMax | app/src/main/java/com/engineerfred/finalyearproject/data/local/Detector.kt:150-155 | when there is a candidate, the first detection has the highest score of all candidates |
| Detectors.OfflineFirstIsMax | app/src/main/java/com/engineerfred/finalyearproject/data/local/OfflineDetector2.kt:145-150 | when there is a candidate, the first detection has the highest score of all candidates |
| Detectors.DetectorCovers | app/src/main/java/com/engineerfred/finalyearproject/data/local/Detector.kt:153-160 | each candidate is reported, or a detection of at least its score has IoU with it not below 0.15 |
| Detectors.OfflineCovers | app/src/main/java/com/engineerfred/finalyearproject/data/local/OfflineDetector2.kt:148-161 | each candidate is reported, or a detection of at least its score has IoU with it of at least 0.5 |
| Detectors.OfflineTieOrder | app/src/main/java/com/engineerfred/finalyearproject/data/local/OfflineDetector2.kt:145 | detections of equal score come out in the order their positions were scanned |
| Detectors.DetectorNmsIdempotent | app/src/main/java/com/engineerfred/finalyearproject/data/local/Detector.kt:149-163 | suppressing the detections again changes nothing, when equal confidences are polled first in list order (see Left out) |
| Detectors.OfflineNmsIdempotent | app/src/main/java/com/engineerfred/finalyearproject/data/local/OfflineDetector2.kt:144-164 | sorting and suppressing the detections again changes nothing |
| Quirks.OfflineHeightFromWidth | app/src/main/java/com/engineerfred/finalyearproject/data/local/OfflineDetector2.kt:121 | a position of width 0.2 and height 0.4 is reported 0.2 high, with vertical corners 0.4 and 0.6 |
| Quirks.CorrectedHeight | app/src/main/java/com/engineerfred/finalyearproject/data/local/OfflineDetector2.kt:118-125 | with channel 3 the same position is reported 0.4 high, corners 0.3 and 0.7 |
| Quirks.CorrectedHeightEverywhere | app/src/main/java/com/engineerfred/finalyearproject/data/local/OfflineDetector2.kt:118-121 | every corrected detection carries the centre, width and height of one tensor position |
| Quirks.ReversedCornersAccepted | app/src/main/java/com/engineerfred/finalyearproject/data/local/Detector.kt:127-134 | a negative width and height pass the corner checks and give a box with x1 > x2 and y1 > y2 |
| Quirks.DotsOverlapIsNaN | app/src/main/java/com/engineerfred/finalyearproject/data/local/Detector.kt:170-173 | two zero-area boxes at one point have IoU 0/0 = NaN |
| Quirks.NaNSplitsTheRules | app/src/main/java/com/engineerfred/finalyearproject/data/local/Detector.kt:157 | on that pair the keep-if-below loop drops the second box and the remove-if-at-least loop keeps both |
| Text.Split | app/src/main/java/com/engineerfred/finalyearproject/utils/helpers.kt:45 | splitting gives at least one part and no part contains the separator |
| Text.JoinSplit | app/src/main/java/com/engineerfred/finalyearproject/utils/helpers.kt:45 | joining the parts with the separator gives back the string |
| Text.SplitLength | app/src/main/java/com/engineerfred/finalyearproject/utils/helpers.kt:45-46 | there is one more part than there are separators, empty parts included |
| Text.SplitNoSeparator | app/src/main/java/com/engineerfred/finalyearproject/utils/helpers.kt:45 | a string without the separator is a single part |
| Text.SplitCons | app/src/main/java/com/engineerfred/finalyearproject/utils/helpers.kt:45 | a separator-free head followed by the separator is the first part |
| Ipv4.ParseInt | app/src/main/java/com/engineerfred/finalyearproject/utils/helpers.kt:48 | `toInt` succeeds only on an optional sign followed by at least one ASCII digit and nothing else, and only with a value in the range of a 32-bit Int; an empty or non-numeric part throws |
| Ipv4.ParseUnsigned | app/src/main/java/com/engineerfred/finalyearproject/utils/helpers.kt:48 | one to nine ASCII digits parse to their decimal value |
| Ipv4.ParseSigned | app/src/main/java/com/engineerfred/finalyearproject/utils/helpers.kt:48 | a `+` or `-` before one to nine ASCII digits gives their value with that sign, so "+1" parses to 1 and "-0" to 0 |
| Ipv4.LeadingZeroIgnored | app/src/main/java/com/engineerfred/finalyearproject/utils/helpers.kt:48 | a leading zero does not change the value of a digit string |
| Ipv4.AllInRange | app/src/main/java/com/engineerfred/finalyearproject/utils/helpers.kt:47-51 | a true result means every part parses into 0..255; an exception means some part does not parse; a false result means some part is not in range |
| Ipv4.AllInRangeMeaning | app/src/main/java/com/engineerfred/finalyearproject/utils/helpers.kt:47-51 | the `try`/`all` scan, which stops at the first throwing or out-of-range part, is true exactly when every part parses into 0..255 |
| Ipv4.SplitParseValid | app/src/main/java/com/engineerfred/finalyearproject/utils/helpers.kt:44-52 | an accepted address has four dot-separated parts, each parsing into 0..255; the converse is Ipv4.SplitParseValidMeaning |
| Ipv4.SplitParseValidMeaning | app/src/main/java/com/engineerfred/finalyearproject/utils/helpers.kt:44-52 | the split validator accepts exactly the strings with four dot-separated parts, each parsing into 0..255 |
| Ipv4.SplitFour | app/src/main/java/com/engineerfred/finalyearproject/utils/helpers.kt:45 | four dot-free parts written with dots split back into those four parts |
| Ipv4.SplitParseFour | app/src/main/java/com/engineerfred/finalyearproject/utils/helpers.kt:44-52 | such an address is split-valid exactly when each of its four parts parses into 0..255 |
| Ipv4.WrongPartCountRejected | app/src/main/java/com/engineerfred/finalyearproject/utils/helpers.kt:46 | three or five parts are rejected |
| Ipv4.TrailingDotRejected | app/src/main/java/com/engineerfred/finalyearproject/utils/helpers.kt:45-51 | a trailing dot leaves an empty part, whose parse fails |
| Ipv4.LeadingZerosByValue | app/src/main/java/com/engineerfred/finalyearproject/utils/helpers.kt:48 | "001" parses to 1, and 001.002.003.004 passes both validators |
| Ipv4.OctetMeaning | app/src/main/java/com/engineerfred/finalyearproject/ui/vm/MyViewModel.kt:135 | the octet alternation matches exactly one to three digits of value at most 255, leading zeros included |
| Ipv4.OctetHasNoDot | app/src/main/java/com/engineerfred/finalyearproject/ui/vm/MyViewModel.kt:135 | an octet contains no dot |
| Ipv4.RegexValid | app/src/main/java/com/engineerfred/finalyearproject/ui/vm/MyViewModel.kt:133-138 | the anchored pattern; its meaning is carried by Ipv4.RegexValidMeaning and Ipv4.RegexValidLength |
| Ipv4.RegexValidLength | app/src/main/java/com/engineerfred/finalyearproject/ui/vm/MyViewModel.kt:133-138 | an address the pattern accepts has 7 to 15 characters |
| Ipv4.RegexValidMeaning | app/src/main/java/com/engineerfred/finalyearproject/ui/vm/MyViewModel.kt:133-138 | the anchored pattern matches exactly the strings whose dot-split has four parts, each an octet |
| Ipv4.RegexFour | app/src/main/java/com/engineerfred/finalyearproject/ui/vm/MyViewModel.kt:133-138 | four dot-free parts written with dots match exactly when each is an octet |
| Ipv4.OctetInRange | app/src/main/java/com/engineerfred/finalyearproject/ui/vm/MyViewModel.kt:135 | every octet parses, to a value in 0..255 |
| Ipv4.RegexImpliesSplitParse | app/src/main/java/com/engineerfred/finalyearproject/ui/vm/MyViewModel.kt:133-138 | every address the pattern accepts, the split validator accepts |
| Ipv4.PaddedPartOnlyParses | app/src/main/java/com/engineerfred/finalyearproject/utils/helpers.kt:48 | 0001.2.3.4 passes the split validator and fails the pattern |
| Ipv4.SignedPartOnlyParses | app/src/main/java/com/engineerfred/finalyearproject/utils/helpers.kt:48 | +1.2.3.4 passes the split validator and fails the pattern |
| Ipv4.RegexStrictlyStricter | app/src/main/java/com/engineerfred/finalyearproject/ui/vm/MyViewModel.kt:133-138 | the pattern implies the split validator for every string, and some string separates them |
| Username.ValidateUsername | app/src/main/java/com/engineerfred/finalyearproject/ui/screen/username/UsernameViewModel.kt:58-60 | the emptiness, length and pattern tests; its meaning is carried by Username.ValidateUsernameMeaning |
| Username.ValidateUsernameMeaning | app/src/main/java/com/engineerfred/finalyearproject/ui/screen/username/UsernameViewModel.kt:58-60 | a username is valid exactly when it has at least three characters, all in [a-zA-Z0-9_] |
| Username.Init | app/src/main/java/com/engineerfred/finalyearproject/ui/screen/username/UsernameViewModel.kt:19-26 | the screen starts with the stored name, if any, and no error |
| Username.ChangeUsername | app/src/main/java/com/engineerfred/finalyearproject/ui/screen/username/UsernameViewModel.kt:28-35 | the field takes the new text; the error is "Invalid username" exactly when the text is invalid, and absent otherwise |
| Username.SaveUsername | app/src/main/java/com/engineerfred/finalyearproject/ui/screen/username/UsernameViewModel.kt:37-56 | no name: "Provide a username"; an invalid name: "Invalid username"; neither changes the store; a valid name is stored and the screen is unchanged |
| Username.SaveOnlyStoresValidText | app/src/main/java/com/engineerfred/finalyearproject/ui/screen/username/UsernameViewModel.kt:37-56 | saving keeps the typed text, and the store changes only to the typed text when it is valid |
| Username.InitReachable | app/src/main/java/com/engineerfred/finalyearproject/ui/screen/username/UsernameViewModel.kt:19-26 | starting from a store holding nothing or a valid name, the screen satisfies the invariant |
| Username.ChangeKeepsReachable | app/src/main/java/com/engineerfred/finalyearproject/ui/screen/username/UsernameViewModel.kt:28-35 | typing preserves the invariant: valid store, known error messages, error-free text valid |
| Username.SaveKeepsReachable | app/src/main/java/com/engineerfred/finalyearproject/ui/screen/username/UsernameViewModel.kt:37-56 | saving preserves the invariant |
| Username.Run | app/src/main/java/com/engineerfred/finalyearproject/ui/screen/username/UsernameViewModel.kt:28-56 | the state and store after a sequence of typing and saving actions; its meaning is carried by Username.RunKeepsReachable |
| Username.RunKeepsReachable | app/src/main/java/com/engineerfred/finalyearproject/ui/screen/username/UsernameViewModel.kt:28-56 | after any sequence of typing and saving the store holds nothing or a valid name |
| Username.ChangeThenSave | app/src/main/java/com/engineerfred/finalyearproject/ui/screen/username/UsernameViewModel.kt:28-56 | typing a name and saving stores it exactly when it is valid, and otherwise leaves the store alone |
| Username.SaveIdempotent | app/src/main/java/com/engineerfred/finalyearproject/ui/screen/username/UsernameViewModel.kt:37-56 | saving twice is saving once |
| Username.Examples | app/src/main/java/com/engineerfred/finalyearproject/ui/screen/username/UsernameViewModel.kt:58-60 | "bob" and "a_1" are valid; "ab", "" and "bo b" are not |
| PredictOnline.Predict | app/src/main/java/com/engineerfred/finalyearproject/ui/vm/MyViewModel.kt:90-108 | the mode becomes Remote; a request is launched exactly when an image and a pattern-valid address are set; otherwise the first failed guard's message is shown |
| PredictOnline.BaseUrlRecoversAddress | app/src/main/java/com/engineerfred/finalyearproject/ui/vm/MyViewModel.kt:113 | the base URL is the address framed by a fixed prefix and port suffix, so the address can be read back from it |
| PredictOnline.LaunchedAddressIsSplitValid | app/src/main/java/com/engineerfred/finalyearproject/ui/vm/MyViewModel.kt:105-108 | a launched request targets an address the split validator accepts too |
| PredictOnline.StoppedIsStable | app/src/main/java/com/engineerfred/finalyearproject/ui/vm/MyViewModel.kt:90-108 | calling again after a stop changes nothing more |
| PredictOnline.ImageCheckedFirst | app/src/main/java/com/engineerfred/finalyearproject/ui/vm/MyViewModel.kt:93-96 | without an image the message is "No image selected!" whatever the address |
| PredictOnline.PaddedAddressRefused | app/src/main/java/com/engineerfred/finalyearproject/ui/vm/MyViewModel.kt:105-108 | 0001.2.3.4, which the split validator accepts, is refused with "Invalid IP address format" |
| Report.DisplayConfidence | app/src/main/java/com/engineerfred/finalyearproject/utils/PdfUtils.kt:87-91 | the displayed confidence is at most 1, never below the score (for scores up to 1), at least 0.4 for non-negative scores, and one of 1, the score, score + 0.3 or score + 0.4 |
| Report.DisplayBands | app/src/main/java/com/engineerfred/finalyearproject/utils/PdfUtils.kt:87-91 | below 0.5 the uplift is 0.4; from 0.5 to 0.7 it is 0.3; from 0.7 to 0.85 the raised score is capped at 1; from 0.85 to 1 the score is shown as it is; above 1 it is capped at 1 |
| Report.DisplayMonotoneInBand | app/src/main/java/com/engineerfred/finalyearproject/utils/PdfUtils.kt:87-91 | within one band a higher score is never shown lower |
| Report.DisplayNotMonotone | app/src/main/java/com/engineerfred/finalyearproject/utils/PdfUtils.kt:88-89 | across the 0.5 boundary the order flips: 0.49 is shown as 0.89 and 0.5 as 0.8 |
| Report.ToInt | app/src/main/java/com/engineerfred/finalyearproject/utils/PdfUtils.kt:93 | `Float.toInt()` lies in the Int range, truncates toward zero inside it and saturates at its bounds |
| Report.Percent | app/src/main/java/com/engineerfred/finalyearproject/utils/PdfUtils.kt:93 | the printed percentage; its meaning is carried by Report.PercentBounds and Report.DetectionPercentAtLeast55 |
| Report.PercentBounds | app/src/main/java/com/engineerfred/finalyearproject/utils/PdfUtils.kt:93 | a confidence in [0, 1] prints as the whole percentage 0..100 just below or at confidence * 100 |
| Report.DetectionPercentAtLeast55 | app/src/main/java/com/engineerfred/finalyearproject/utils/PdfUtils.kt:87-93 | a detection scoring above 0.15, however high, prints between 55% and 100% |
| Report.WrapWords | app/src/main/java/com/engineerfred/finalyearproject/utils/PdfUtils.kt:161-169 | the word loop; its meaning is carried by Report.WrapWithinWidth, Report.WrapEmptyLines, Report.WrapKeepsLines and Report.WrapContent |
| Report.SplitTextIntoLines | app/src/main/java/com/engineerfred/finalyearproject/utils/PdfUtils.kt:156-172 | the whole wrap; its meaning is carried by Report.LinesWithinWidth, Report.EmptyLineOnlyForWideWord and Report.WrapPreservesText |
| Report.WrapWithinWidth | app/src/main/java/com/engineerfred/finalyearproject/utils/PdfUtils.kt:161-169 | the loop only produces lines that fit the width or hold a single word |
| Report.LinesWithinWidth | app/src/main/java/com/engineerfred/finalyearproject/utils/PdfUtils.kt:156-172 | every line of several words fits the width |
| Report.WrapEmptyLines | app/src/main/java/com/engineerfred/finalyearproject/utils/PdfUtils.kt:161-169 | the loop adds an empty line only when some word alone is too wide |
| Report.EmptyLineOnlyForWideWord | app/src/main/java/com/engineerfred/finalyearproject/utils/PdfUtils.kt:156-172 | an empty line appears only when some word alone is wider than the page |
| Report.WrapKeepsLines | app/src/main/java/com/engineerfred/finalyearproject/utils/PdfUtils.kt:161-169 | the loop only appends to the finished lines |
| Report.WrapContent | app/src/main/java/com/engineerfred/finalyearproject/utils/PdfUtils.kt:161-169 | with no empty words, the lines after the starting ones and the current line join back into the text seen so far |
| Report.WrapPreservesText | app/src/main/java/com/engineerfred/finalyearproject/utils/PdfUtils.kt:156-172 | for text without empty words: a leading empty line exactly when the first word alone is too wide, all other lines non-empty, and the lines joined with spaces give back the text |
| Report.WideFirstWordGivesEmptyLine | app/src/main/java/com/engineerfred/finalyearproject/utils/PdfUtils.kt:162-165 | with one unit per character and width 1, the text "ab" wraps to an empty line followed by "ab" |
| Report.NonEmptyAgrees | app/src/main/java/com/engineerfred/finalyearproject/utils/PdfUtils.kt:161-169 | once the current line holds text, the corrected loop takes the same steps as the loop as written |
| Report.SplitTextIntoLinesNonEmpty | app/src/main/java/com/engineerfred/finalyearproject/utils/PdfUtils.kt:156-172 | the corrected wrap, which adds a line only when it holds text; its meaning is carried by Report.NonEmptyWrapPreservesText |
| Report.NonEmptyWrapPreservesText | app/src/main/java/com/engineerfred/finalyearproject/utils/PdfUtils.kt:156-172 | the corrected wrap emits no empty line, keeps lines of several words within the width, and joins back into the text |

## Left out

- Loading the TFLite interpreter, resizing and normalising the bitmap, and running inference are left out. The output tensor and the four shape values are inputs, and `loaded` stands for a non-null interpreter.
- Float32 rounding is left out: values are reals and the thresholds are exactly 0.15, 0.2 and 0.5. Of the IEEE special values only those of division by zero in IoU are modelled.
- NaN and infinite values in the output tensor are left out, because tensor values are reals. In the source a NaN centre or width makes both corners NaN, which pass every corner check because each comparison with NaN is false; such a box has NaN IoU with every other box, so under Detector.kt's `<` rule a top-scoring one suppresses all the others. A NaN class score never wins the strict `>` scan.
- Detectors.DetectorDetect: requires the buffer to hold `numChannel * numElements` values. `TensorBuffer.createFixedSize` always allocates that many, so the `catch` at Detector.kt:95-98 is never reached through an index error.
- Nms.FirstMax: `PriorityQueue.poll` does not say which of several equal maxima it returns; the model takes the first in list order.
- Nms.GreedyFixpoint: the selection is equal to its input as a sequence only under the first-in-list tie rule. Java's binary heap can return equal-confidence boxes in another order, so for Detector.kt this holds only up to the order of equal-confidence boxes.
- Nms.GreedyIdempotent: equal as sequences only under the first-in-list tie rule. The selected boxes do not suppress one another, so a second pass with Detector.kt's queue selects the same boxes, but it can return equal-confidence ones in another order.
- Nms.SortedIsGreedy: equal only under the first-in-list tie rule. On ties Detector.kt's queue may poll a later box first and so keep a different box of an overlapping equal-confidence pair.
- Detectors.DetectorNmsIdempotent: holds for Detector.kt only up to the order of equal-confidence detections, for the reason given under Nms.GreedyIdempotent.
- Ipv4.ParseInt: accepts ASCII digits only. Java's parser also accepts other Unicode decimal digits, which the pattern rejects, so the strictness result is not affected.
- PredictOnline.Predict: `prepareFilePart`, the coroutine that sends the request and what the response does to the state are I/O and are left out. The launched request is reported as its base URL.
- Username.SaveUsername: the preference store is the value `saved`; `SharedPreferences` is left out. The `UsernameUiState` class is not part of this model; both its fields are taken to start as null.
- PDF drawing, page breaks, file saving and the summary text of `PdfUtils.kt` are drawing and I/O, and are left out. `paint.measureText` is the parameter `measure`.
- The `BoundingBox` class file is not part of this model; its fields are taken from the constructor calls at Detector.kt:136-142.
- The camera, navigation, onboarding and other screens are outside the modelled core.

## Findings

| source | as written | input that shows it | evidently intended | confidence | as-written member | corrected member |
|---|---|---|---|---|---|---|
| app/src/main/java/com/engineerfred/finalyearproject/data/local/OfflineDetector2.kt:121 | the height is read from channel 2, the width channel | one position `[0.5, 0.5, 0.2, 0.4, 0.9]`: reported 0.2 high, not 0.4 | read the height from channel 3, as Detector.kt:126 does | high, not executed | Quirks.OfflineHeightFromWidth | Detectors.CorrectedOfflineDetect, with its height proved by Quirks.CorrectedHeightEverywhere |
| app/src/main/java/com/engineerfred/finalyearproject/utils/PdfUtils.kt:163-165 | the current line is pushed even when it is still empty | text "ab", one unit per character, width 1: lines "" and "ab" | push only a non-empty line, so no blank line precedes a long first word | medium, not executed | Report.WideFirstWordGivesEmptyLine | Report.NonEmptyWrapPreservesText |
