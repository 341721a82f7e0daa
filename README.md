# Colour analysis for colour-blind users — a Dafny model

The colour analyser looks at a region of a camera image and works out three things:

- which named colours the region contains, and how much of it each one covers;
- which of those colours dominate;
- whether they are hard to see for a user with a given type of colour blindness.

It also reads a traffic light from a region as red, yellow, green or unknown.

This project models that analyser and proves what it computes. The modules are:

- `ColorTables` (`tables.dfy`) holds the constant data: the colour-blindness types, the HSV box of each of the 31 named colours (in table order), which colours each type struggles with, and the human-readable display names.
- `Shares` (`shares.dfy`) holds the detected-colour dictionary as an ordered sequence of `(name, percent)` entries. It also holds `d.get(name, 0)` and the stable descending sort by share that `sorted(..., reverse=True)` performs, with its permutation, order and stability proofs.
- `Detection` (`detect.dfy`) holds `detect_colors` as the method `DetectColors`. Its loop over the colour table is proved against the function `Detected`. Lemmas show that the result lists exactly the colours above 5%, each once, in table order, with its exact share.
- `Dominance` (`dominant.dfy`) holds `get_dominant_colors`. Its de-duplicating loop is proved against `Dominant`, the specification "sort, keep the first entry of each display name, take `max(topN, 1)`". The lemmas about `Dominant` cover:
  - distinctness and length bounds;
  - which share each name stands for;
  - non-increasing order;
  - that the reported names are the top ones;
  - completeness;
  - the order of ties.
- `ColorAnalyzer` (`analyzer.dfy`) holds `is_problematic_for_user`, a loop proved against `Assess`, with the exact decision rule and warning text. It also holds `analyze_region` as a method that combines the steps.
- `TrafficLight` (`traffic.dfy`) holds `analyze_traffic_light` as a function. Lemmas cover:
  - its decision rule;
  - ties;
  - the confidence bounds;
  - that with the model's exact shares the cap `min(.., 1.0)` never binds, because the two red hue bands cannot both select a pixel. With the source's rounded shares it can bind; see "## Left out".

A region is a flattened sequence of pixels that are already in OpenCV's 8-bit HSV encoding. Shares are exact real numbers.

## Model

| member | source | states |
|---|---|---|
| ColorTables.TypeValuesDistinct | python-detection/color_analyzer.py:16-25 | the eight colour-blindness types carry eight different string values |
| ColorTables.RangeNamesDistinct | python-detection/color_analyzer.py:31-78 | the 31 colour-table keys are pairwise different |
| ColorTables.RangeNamesListed | python-detection/color_analyzer.py:31-78 | the key sequence of the colour table is exactly the 31 names in declaration order |
| ColorTables.EveryRangeHasDisplayName | python-detection/color_analyzer.py:115-162 | every key of the colour table has an entry in the display-name table |
| ColorTables.DisplayCollisions | python-detection/color_analyzer.py:115-162 | two different table colours share a display name exactly when they are `red_low` and `red_high`, the only pair that de-duplication by display name can merge |
| ColorTables.ProblematicAreRanges | python-detection/color_analyzer.py:81-112 | every colour any type lists as problematic is a key of the colour table |
| ColorTables.ProblematicExtremes | python-detection/color_analyzer.py:82-111 | achromatopsia lists exactly the colour-table keys, and normal vision is the only type with an empty list |
| Shares.SortByShare | python-detection/color_analyzer.py:220-224 | the sorted entries are a permutation of the input, in non-increasing order of share, and entries with equal shares keep their input order (stability) |
| Shares.LookupAppend | python-detection/color_analyzer.py:331-333 | `get(name, 0)` on a dictionary extended by one entry returns the old value for a known name, the new value for a new name, and 0 for an absent name |
| Detection.CountIn | python-detection/color_analyzer.py:195-198 | a colour mask selects at most every pixel of the region |
| Detection.AboveFivePercent | python-detection/color_analyzer.py:199-201 | a colour passes the `> 5` test exactly when 100 times its pixel count exceeds 5 times the region size |
| Detection.PercentageAtMost100 | python-detection/color_analyzer.py:199 | a share computed from a count no larger than the region lies between 0 and 100 |
| Detection.DetectColors | python-detection/color_analyzer.py:181-204 | the loop over the colour table returns exactly `Detected(pixels)`: nothing for an empty region, otherwise the colours above 5% in table order with their shares |
| Detection.DetectIn | python-detection/color_analyzer.py:188-204 | the loop over a colour table, which counts each colour's pixels and records the share when it is above 5%, returns exactly `DetectedIn(table, pixels)` |
| Detection.DetectedEmpty | python-detection/color_analyzer.py:181-182 | an empty region yields an empty dictionary |
| Detection.DetectedWellFormed | python-detection/color_analyzer.py:188-204 | each detected entry names a table colour with a share in (5, 100] that equals that colour's exact share of the region; entries follow table order and no name repeats |
| Detection.DetectedComplete | python-detection/color_analyzer.py:190-202 | every table colour whose share is above 5% is in the result with that share |
| Detection.DetectedLookup | python-detection/color_analyzer.py:201-202 | looking a table colour up in the result gives its share when that is above 5%, and 0 otherwise |
| Dominance.AtLeastOne | python-detection/color_analyzer.py:229-235 | the stop test after the append lets at least one name through; the limit is `topN` when that is positive |
| Dominance.GetDominantColors | python-detection/color_analyzer.py:206-237 | detection, the sort and the loop return exactly `Dominant(Detected(pixels), topN)` |
| Dominance.TopDistinctKeys | python-detection/color_analyzer.py:227-236 | the loop collecting unseen display names, stopping once `topN` are collected, returns the keys of the first `max(topN, 1)` entries, each the first of its display name |
| Dominance.DominantDistinct | python-detection/color_analyzer.py:227-233 | no display name is returned twice |
| Dominance.DominantLength | python-detection/color_analyzer.py:229-236 | at most `topN` names for a positive `topN`; exactly one name when `topN <= 1` and anything was detected; at least one name when anything was detected; never more names than detected colours; none for nothing detected |
| Dominance.DominantOrigins | python-detection/color_analyzer.py:220-233 | each name is the display name of a detected colour, and the names come in non-increasing order of share |
| Dominance.DominantLargest | python-detection/color_analyzer.py:220-233 | among the detected colours with the same display name, a name stands for the one with the largest share |
| Dominance.DominantTop | python-detection/color_analyzer.py:206-237 | the reported names are the top ones: a detected colour whose display name is not reported has no larger share than any reported colour |
| Dominance.DominantComplete | python-detection/color_analyzer.py:229-236 | when the loop ends before the limit, every detected colour's display name is in the result |
| Dominance.DominantTiesInInputOrder | python-detection/color_analyzer.py:220-224 | two returned colours with equal shares appear in the order detection listed them |
| ColorAnalyzer.IsProblematicForUser | python-detection/color_analyzer.py:239-272 | the loop and the warning return exactly `Assess(detected, type)` |
| ColorAnalyzer.OffendingNonEmpty | python-detection/color_analyzer.py:259-264 | the collected list is non-empty exactly when a detected entry is problematic for the type and above 10% |
| ColorAnalyzer.OffendingSound | python-detection/color_analyzer.py:261-264 | each collected entry is a problematic detected entry above 10%, renamed to its display name, with its share |
| ColorAnalyzer.OffendingInOrder | python-detection/color_analyzer.py:261-264 | the collected entries follow dictionary order |
| ColorAnalyzer.OffendingComplete | python-detection/color_analyzer.py:261-264 | every problematic detected entry above 10% is collected |
| ColorAnalyzer.AssessNothingListed | python-detection/color_analyzer.py:254-257 | a type with no problematic colours, normal vision among them, is never warned |
| ColorAnalyzer.AssessDecides | python-detection/color_analyzer.py:259-272 | the answer is yes exactly when some detected colour is problematic for the type and above 10%, and a warning is present exactly when the answer is yes |
| ColorAnalyzer.AssessWarning | python-detection/color_analyzer.py:266-270 | the warning reads `Contains <a> - may be difficult to see` or `Contains <a>, <b> - may be difficult to see`, where `<a>` and `<b>` are the display names of the first one or two collected colours |
| ColorAnalyzer.AnalyzeRegion | python-detection/color_analyzer.py:274-313 | an empty region gives no dominant colours, no problem, no warning and no breakdown; otherwise the breakdown is the detection result, the dominant colours are the top three, and the problem flag and warning are those of `IsProblematicForUser` (the flag is set exactly when a problematic colour is above 10%, and the warning is present exactly when the flag is set); never more than three dominant colours |
| TrafficLight.ReadLightDecides | python-detection/color_analyzer.py:330-343 | a colour is read exactly when its share beats both other shares strictly and exceeds 10%; at most one colour can qualify; unknown carries confidence 0 |
| TrafficLight.ReadLightTie | python-detection/color_analyzer.py:336-343 | a tie for the largest share reads as unknown with confidence 0 |
| TrafficLight.ReadLightConfidence | python-detection/color_analyzer.py:336-341 | a colour's confidence is its share divided by 100, capped at 1, so it lies in (0.1, 1] |
| TrafficLight.AnalyzeEmpty | python-detection/color_analyzer.py:325-326 | an empty region reads as unknown with confidence 0 |
| TrafficLight.CountDisjoint | python-detection/color_analyzer.py:33-34 | two colour boxes with disjoint hue bands, such as the two reds, select at most the whole region between them |
| TrafficLight.RedShareAtMost100 | python-detection/color_analyzer.py:331 | the combined exact red share of a non-empty region is at most 100 |
| TrafficLight.AnalyzeConfidenceExact | python-detection/color_analyzer.py:331-341 | with exact shares the cap never binds: on a non-empty region a colour reading's confidence is exactly its share divided by 100 |
| TrafficLight.AnalyzeTrafficLightReads | python-detection/color_analyzer.py:315-343 | the whole reading: unknown with confidence 0 for an empty region; otherwise red, yellow or green exactly when that detected share strictly beats the other two and exceeds 10%, with confidence equal to the exact share divided by 100, in (0.1, 1]; unknown with confidence 0 otherwise |

## Left out

- Conversion from BGR to HSV (`cv2.cvtColor`) and the image array are not modelled. A region is given as a flattened sequence of HSV pixels, and its size is the number of pixels.
- `cv2.inRange` and `cv2.countNonZero` are modelled by the inclusive box test `InRange` and the count `CountIn`. OpenCV itself is not part of this model.
- Floating point is not modelled. Shares are exact reals.
- Detection.DetectColors: stores the exact share, not `round(percentage, 1)`. The source applies the `> 5` test before rounding, so a stored value can be 5.0 where the model's is just above 5. The `> 10` tests and the sort then see exact rather than rounded values, so a rounding tie in the source, and the order it produces, is not reproduced.
- TrafficLight.RedShareAtMost100: holds for the model's exact shares only. The source rounds each share to one decimal before adding the two reds. Take an 80-pixel region with 31 `red_low` pixels and 49 `red_high` pixels. In floating point the shares are 38.75 and 61.25000000000001, which round to 38.8 and 61.3, so the source's red share is 100.1.
- TrafficLight.AnalyzeConfidenceExact: holds for exact shares only. In the source, for the region above, the red share of 100.1 makes `min(1.001, 1.0)` bind, so the confidence is 1.0 rather than the share divided by 100.
- TrafficLight.AnalyzeTrafficLightReads: its clause "confidence is the share divided by 100" holds for exact shares only; in the source the cap binds for the region above.
- `get_dominant_colors` has the default argument `top_n = 3`. `GetDominantColors` takes `topN` explicitly, and `AnalyzeRegion` passes 3, as the source's call does.
- Logging (`logger`) is not modelled. The core never uses it.
- The percentage that `is_problematic_for_user` keeps beside each collected name is carried in the model but never read, just as in the source.
- `analyze_region` runs detection twice, once directly and once inside `get_dominant_colors`. The model runs the same deterministic function both times, so the two results agree.
- `is_problematic_for_user` takes a dictionary, whose keys are unique. The model accepts any sequence of entries, repeated names included, and its lemmas hold for every such sequence.
- The confidence of an unknown reading is the integer 0 in the source and the real 0.0 in the model.
- The dictionary results of `analyze_region` and `analyze_traffic_light` are records. The optional `color_breakdown` key is an `Option`.
