# A verified model of the personal-data guard

The service hides personal data before a text leaves for a language model and puts it back
into the answer. This project models the service's core in Dafny and proves what it is
for: that masking can be undone, when it cannot, and what its surrounding machinery keeps.

Detectors give *candidates*. `Resolve` makes a disjoint selection of them, `Combination`
drops what may only appear together with something else, and `Pipeline` splices the
maskers' outputs into the text in one pass and records what it replaced. `Masking` holds
the numbering of a session and the six maskers; `Canonical` says when two spellings count
as one value, and `Values` when two values get one mask. `Demask` undoes the splice in two passes:
a tolerant scanner for placeholders (`Scanner`, `Tolerance`), then a first-occurrence substitution for
partial masks that works on the text already edited. `Session` is the service over its
vault, with many systems, evictions and vault faults in any order. `Document` is the
folded text that detectors see, with the byte map back to the original. `JsonPaths` and
`PathParser` choose the strings of a request, `PolicyLayers` and its cache choose the
policy, `RateLimit` and `Breaker` guard the service, `Checksums` holds the check digits.

Where the source changes state, the model does too: classes with fields, methods with
loops. Each such method is proved equal to a function of its inputs and old state, and the
laws are lemmas about those functions.

## Main results

* **Inversion.** `Inversion.LineRoundTrip` covers all six kinds of masks: if neither pass is
  misled, every recorded value comes back and every other one is shown as its mask.
  `Inversion.MixedRoundTrip` is the round trip for placeholders, partial masks and values
  without a record (redacted or hashed), in any mixture, as the strict profile has them, from
  conditions on the line; `Inversion.MixedRoundTripIffAtHome` allows stars anywhere in the text
  and says exactly when it still comes back. Without the assumption that equal keys mean
  equal spellings, `Inversion.RoundTripToLastSpelling` says what comes back, and
  `Inversion.RoundTripIffLastSpelling` when that is the line itself.
  `InputRoundTrip.RoundTripFromInput` needs only what can be read off the text and the
  detected entities. `EndToEnd.PipelineRoundTrip` starts from arbitrary candidates,
  `Session.ServiceRoundTrip` goes through the vault.
* **What breaks the round trip** is shown on texts that the pipeline itself masks, each with
  the exact condition: a star (`Counterexamples.StarInTextBreaksRoundTrip`; comes back iff
  every mask is found at home, `Inversion.MixedRoundTripIffAtHome`), gaps and values that
  together spell an issued placeholder (`Counterexamples.BracketInTextBreaksRoundTrip`; comes
  back iff the line holds none, `Exactness.BackIffNoPlaceholder`), and a text that already
  reads like an issued key (`Counterexamples.AccidentalKeyBreaksRoundTrip`; comes back iff
  every such match is itself the key's value, `Exactness.BackIffKeysAreText`).
* **Several strings under one session**, as the proxy masks a request: the last mapping
  stays, and `Session.EarlierStringBackIff` says what an earlier string comes back as under any
  policy, and exactly when all its placeholder values are its own.
  `Session.SharedSessionMixesValues` is the case in which it is the later one's value.
* **The scanner.** `Scanner.MatchIsLongestWord` proves the matcher against a grammar,
  `Scanner.ScannerDecomposition` that no match straddles a placeholder, and
  `RoundTrip.TolerantRestore` that every bracketed spelling of a key restores it. The
  grammar names the characters of the regular expression itself; `Tolerance.EverySpellingRestores` says which
  spellings of a placeholder come back, `Tolerance.NothingToRestore` which texts stay as they are, and
  `Tolerance.ShippedScannable` that the shipped Cyrillic labels are read back.
* **Sessions.** `Session.PayloadContract` (one id, one answer, and back),
  `Session.RepliesAreOwn` (isolation between systems) over every run; `Session.MaskCallAnswers` (a raw
  text is answered on dry runs only), `Session.TzCallAnswers` and `Session.DemaskCallAnswers` say what
  every call answers and writes.
* **From configuration to masks.** `PolicyLayers.MaskedAsConfigured`: what a value is shown as, from the
  mask's name in the layer that decides; `PolicyLayers.LayersAre` and `PolicyLayers.ResolveAnswers`:
  which layer that is, and who is refused. `Values.OneMaskIffAlike`: two values get one placeholder
  exactly if they are alike in the sense of their type. `EndToEnd.SelectedFromCandidates`: what reaches
  the splice, address components included.
* **The offset map.** `Document.OffsetMapRight`, `Document.SliceFoldsBack`,
  `Document.RangeCoversImages`, and `Document.FastRefinesSlow` for the ASCII fast path.
* **The sweep.** `Resolve.ResolveSafe`: disjoint unless an empty candidate follows a
  non-empty one with the same start, which does harm for every candidate that starts inside it
  (`Resolve.EmptySpanBreaksSweep`); `Document.EmptySpanIff` says which ranges of the folded text
  translate to such empty spans. `Resolve.ResolveDominates` holds wherever the preference is a
  strict weak order, and `Resolve.AWinsStrictWeakOrder` says exactly where it is.
* **Joint occurrence.** `CombinationLaws.MonotoneIff` and `CombinationLaws.IdempotentIff`: which
  rule sets never drop more when more is found, and which settle in one pass.
* **Disclosure.** `Privacy.MaskedLineTellsOnlyPattern`: a line masked with placeholders
  depends on the values only through which of them are equal.

Three places where the code does something its comments or configuration would not lead
one to expect, each stated by a lemma: stored byte offsets are truncated to 32 bits, so
the end of a document of 4 GiB or more maps to the wrong place
(`Document.SentinelRightIffShort`; the shipped configuration caps request bodies at
2,000,000 bytes, `config/config.yaml:6`, and never gets there); threads that record at once
can open the breaker twice within one window (`Breaker.ConcurrentOpeningsCollide`), though
every opening is still paid for by its share of a window of failures (`Breaker.OpeningsPaid`); and an
address part that a layer disables is effective again in component mode
(`PolicyLayers.MostSpecificLayerDecides`).

## Model

| member | source | states |
|---|---|---|
| Scanner.MatchIsLongestWord | src/service/demask.rs:64 | the matcher finds a match exactly where the regular expression, its character sets written out, has one, and takes the longest; label, separator and number start are the same in every match there |
| Scanner.ScannerDecomposition | src/service/demask.rs:64-84 | for all texts a and b, the matches of a, a placeholder, b are those of a, the placeholder, those of b |
| Scanner.PlaceholderMatch | src/service/demask.rs:64-73 | a bracketed label and number at the front of any text is matched whole, whatever follows |
| RoundTrip.Pass1Around | src/service/demask.rs:69-84 | a placeholder with a known key inside any text becomes its original, and the text around it is treated as if it stood alone |
| RoundTrip.Pass1AroundUnknown | src/service/demask.rs:78-84 | a placeholder with an unknown key stays, and the text around it is treated as if it stood alone |
| RoundTrip.TolerantRestore | src/service/demask.rs:63-83 | a key in any kind of brackets, with inner blanks and any separator, restores the same original, in any surroundings |
| Tolerance.EverySpellingRestores | src/service/demask.rs:53-108 | every label of Latin or Cyrillic capitals with single inner underscores, every number, any opening and closing bracket with blanks or none, any separator or none: a known key is restored and counted, an unknown one stays and is counted as unresolved |
| Tolerance.BracketedRestoresAnywhere | src/service/demask.rs:53-108 | bracketed on both sides such a spelling is restored in any surroundings, which are treated as if each stood alone |
| Tolerance.NothingToRestore | src/service/demask.rs:64-108 | a text without a capital of the two alphabets, or without a digit, is copied unchanged and nothing is counted |
| Tolerance.ShippedScannable | config/config.yaml:58-89 | with the shipped labels and placeholder format every policy over the shipped types is one the scanner can read back |
| RoundTrip.Pass1Verbatim | src/service/demask.rs:78-84 | a text in which no match has a known key is copied unchanged |
| RoundTrip.FirstPass | src/service/demask.rs:63-84 | on a masked text at least every placeholder is restored; if nothing else is, all the rest stays verbatim |
| RoundTrip.FindOwnPlace | src/service/demask.rs:90-95 | with no star before it, the first occurrence of a starred mask from the search position is its own place |
| RoundTrip.StarsLateAtHome | src/service/demask.rs:90-101 | if no star stands before a partial mask, whatever stands behind it, every mask is found at its own place |
| RoundTrip.RestorePiece | src/service/demask.rs:95-100 | one entry restores exactly its piece if a placeholder is not found and an altered mask is found first at its own place; a mask that equals its value may be found anywhere |
| RoundTrip.SecondPass | src/service/demask.rs:86-101 | if no issued placeholder is found and each altered mask is found at home, the second pass restores every recorded non-empty mask once, of whatever kind, and changes nothing else |
| RoundTrip.NotAtHome | src/service/demask.rs:90-101 | if a starred mask is found before its own place, a star of the text is overwritten for good and the text does not come back |
| Demask.DemaskText | src/service/demask.rs:53-108 | the two loops, with counters and in-place edits, compute the specification of both passes |
| Demask.Pass1NextHit | src/service/demask.rs:69-84 | the first pass is: copy up to the next match, resolve it, go on behind it |
| Inversion.LineRoundTrip | src/service/demask.rs:53-108 | masks of all six kinds, with arbitrary digests and synthetic values: if no stretch has an issued key, no placeholder is found by the second pass and each altered mask is found at home, every recorded value comes back and the others are shown as their masks |
| Inversion.MixedRoundTrip | src/service/demask.rs:53-108 | whatever entities were masked by placeholders, partially, or without a record, demasking gives the text back, unrecorded values shown as their masks, and counts every restored value, if equal keys mean equal spellings, no match outside the placeholders has an issued key, the line holds no placeholder it is given, and no star stands before a partial mask (or each is found at home) |
| Inversion.MixedRoundTripIffAtHome | src/service/demask.rs:90-101 | with stars in the line, of the text or of redacted values, it comes back iff the first occurrence of each altered mask, from where the last substitution ended, is its own place |
| Inversion.RoundTripToLastSpelling | src/service/demask.rs:56-84 | with no assumption on spellings, for lines without an opening square bracket: gaps verbatim, each placeholder as the last spelling recorded for its type and canonical form, one restoration per record |
| Inversion.RoundTripIffLastSpelling | src/service/demask.rs:56-84 | wherever one can see where the values end (equal lengths, or a following character they do not hold), the line comes back iff every placeholder stands for the spelling recorded last |
| InputRoundTrip.RoundTripFromInput | src/service/demask.rs:53-108 | for placeholders, partial masks and redactions, from what can be read off the text and the entities: no foreign star before a partial mask and nothing that looks like a label with its number; the text comes back, redacted values as stars, if equal values are spelled equally, and without an opening square bracket every value comes back as last spelled |
| InputRoundTrip.UnlabelledHoldsNone | src/service/demask.rs:90-95 | in such a text no issued placeholder occurs, brackets or not |
| InputRoundTrip.UnlabelledNoAccident | src/service/demask.rs:64-83 | a line made from a text without labels and numbers has no accidental key, whatever is masked in it by placeholders or stars |
| Inversion.AccidentalKeysStandOutside | src/service/demask.rs:64-83 | a masked text has an accidental key iff some stretch outside its placeholders has one when scanned by itself |
| Counterexamples.StarInTextBreaksRoundTrip | src/main.rs:199 | under the service's partial masker, which keeps four characters, a text with a star of its own is restored in the wrong place |
| Counterexamples.AccidentalKeyBreaksRoundTrip | src/service/demask.rs:69-78 | a text whose masked form reads like an issued key outside the placeholder comes back with the value there too |
| Exactness.BackIffKeysAreText | src/service/demask.rs:69-84 | a line that records placeholders only, without an opening square bracket: it comes back if every match outside its placeholders that has an issued key is itself that key's value, and only then wherever one can see where these matches end |
| Exactness.CutsTell | src/service/demask.rs:69-84 | a text cut at its matches with known keys reads as itself before the first pass and as the first pass's result after it |
| Counterexamples.BracketInTextBreaksRoundTrip | src/service/demask.rs:90-101 | gaps and values that together spell an issued placeholder are replaced once more by the second pass |
| Exactness.BackIffNoPlaceholder | src/service/demask.rs:86-101 | a line that records placeholders only, for values without an opening square bracket and without accidental keys: it comes back iff it holds none of the placeholders it is given |
| Exactness.PassLowers | src/service/demask.rs:90-101 | if any stored placeholder occurs in the half-restored text, the second pass leaves fewer opening brackets than it found, whatever it finds later |
| SharedMapping.OtherLineDemasked | src/service/demask.rs:53-108 | a masked line under any line's mapping, masks of any kind in both: each placeholder becomes what that mapping holds under its key or stays, all else stays, if no stretch has a key of that mapping and none of its other masks occurs |
| SharedMapping.OtherLineIff | src/service/demask.rs:56-84 | all placeholder values come back iff each key is there with the same original, wherever one can see where the values end; never if a key is missing, always if all are alike |
| SharedMapping.PartialsBracketFree | src/service/mask.rs:67-79 | partial masks hold no opening square bracket that the line does not |
| SharedMapping.RestoredIffNoAccident | src/service/demask.rs:63-84 | a line that records placeholders only has no accidental key iff as many values are restored as there are records |
| SharedMapping.FirstPassOnly | src/service/demask.rs:86-101 | on such a line without an opening square bracket the second pass never finds anything, accidental keys or not |
| Inversion.TableIsLastSpelling | src/service/demask.rs:56-57 | the key table holds, for each value, the original recorded last |
| Inversion.KeyMatches | src/service/mask.rs:16-33 | a record of any kind has a placeholder's key iff it is a placeholder of the same type and canonical form |
| Lines.SpliceConserves | src/service/pipeline.rs:196-239 | originals and gaps of the splice concatenate to the input |
| Lines.SpliceWellMasked | src/service/pipeline.rs:196-239 | whatever the kinds of masks, every piece is recorded as its kind says: placeholders under the number their value has at the end, other records under keys no placeholder can have, redacted and hashed values not at all |
| Lines.StarKindsPartial | src/service/mask.rs:12-239 | without tokens and synthetic values everything the second pass has to find is a partial mask, and without partial masks there is nothing |
| EndToEnd.PipelineRoundTrip | src/service/pipeline.rs:157-252 | from arbitrary candidates, empty ones included, through resolver, combination rules, splice and demasking: the text comes back, in either address mode, unrecorded values as their masks; in whole-address mode each kept entity is masked unless an empty candidate hides another; each record is restored once if no filed value is empty, as with non-empty candidates |
| EndToEnd.WholeModeMasksAll | src/service/pipeline.rs:181-200 | in whole-address mode, unless an empty candidate follows a non-empty one with the same start, the overlap skip never fires: every detected entity of the policy's types is masked, in place |
| EndToEnd.SelectedFromCandidates | src/service/pipeline.rs:157-181 | what is selected for masking is, one for one and in order, what the surviving candidates hand on, with types, spans and components |
| EndToEnd.HandsOnExact | src/service/pipeline.rs:162-181 | in component mode a surviving ADDRESS with components hands on exactly its components of the policy's types and not itself; any other candidate itself |
| EndToEnd.SpliceVisits | src/service/pipeline.rs:162-196 | the splice visits as many entities, and one of a type at a span iff one of that type and span was handed on |
| Canonical.NamesAlikeIffSameWords | src/service/resolve.rs:96-98 | two names have one canonical form iff their lower-cased spellings have the same words, whatever white space surrounds them |
| Canonical.NumbersAlikeWithoutSeparators | src/service/resolve.rs:93-95 | for the five numeric types a character between the digits does not change the canonical form, iff it is not a digit |
| Canonical.AlikeIffOneForm | src/service/resolve.rs:90-100 | two spellings have one canonical form iff they agree in their digits (five types), in their lower-cased words (two types), or in their lower-cased spelling (every other type) |
| Canonical.CanonicalForm | src/service/resolve.rs:90-100 | the canonical form itself: the digits in order, the lower-cased words joined by blanks, or the lower-cased spelling |
| Values.OneMaskIffAlike | src/service/pipeline.rs:184-219 | in a masked line two values of one placeholder type get the same placeholder iff they are alike in that sense |
| Canonical.SqueezeTwice | src/service/resolve.rs:96-98 | normalising white space twice changes nothing more |
| Pipeline.ExpandExact | src/service/pipeline.rs:163-176 | after expansion an entity is there iff it did not split or is a component of an address that did |
| Pipeline.RetainExact | src/service/pipeline.rs:178-181 | the policy filter keeps exactly the entities of its types |
| Pipeline.ExpandAll | src/service/pipeline.rs:163-176 | the loop that replaces addresses by their components |
| Pipeline.Prepare | src/service/pipeline.rs:163-196 | expansion, policy filter, canonical forms and sort, as one function of the input |
| Pipeline.Prepared | src/service/pipeline.rs:178-196 | what reaches the splice lies in the text and is sorted by start |
| Pipeline.MaskLine | src/service/pipeline.rs:190-252 | the cursor loop yields exactly the splice's text, entities, records and numbering state |
| SpliceLaws.SpliceInverse | src/service/pipeline.rs:190-239 | for any entities, overlapping or not, the reported spans turn input into output and back, both coordinate lists are increasing and disjoint, and the length changes by the sum of the differences |
| SpliceLaws.ReportsName | src/service/pipeline.rs:228-237 | each report names its entity's type, span and mask, and the mask stands in the text where the report says |
| SpliceLaws.MappingHoldsSlices | src/service/guard_service.rs:126-146 | each mapping entry holds the key, the exact original slice and the exact masked form of its record, in order |
| SpliceLaws.BuildEntries | src/service/guard_service.rs:126-141 | the loop that fills the mapping |
| SpliceLaws.ApartAllMasked | src/service/pipeline.rs:196-200 | entities that lie apart are all masked |
| Entities.StableSortCorrect | src/service/resolve.rs:22-23 | the sort is a stable permutation sorted by start |
| Masking.MaskState.NextNumber | src/domain/entity.rs:97-109 | one request: the stored number, or the next of the type, and nothing else changes |
| Masking.NumberAllExact | src/domain/entity.rs:97-109 | over any requests: assigned numbers never change, exactly the requested values have one, per type a bijection with 1..count |
| Masking.NumberingOfSession | src/domain/entity.rs:88-109 | in a fresh session the numbers of a type are exactly 1..n for its n distinct canonical forms |
| Masking.KeysInjective | src/service/mask.rs:16-33 | with distinct labels a placeholder key determines type and canonical form |
| Masking.DefaultPlaceholder | src/service/mask.rs:24-28 | with the default format the replacement is the bracketed label and number |
| Masking.ApplyMasker | src/service/mask.rs:12-239 | the six maskers: replacement, key and numbering state of each |
| Masking.MaskPartially | src/service/mask.rs:67-79 | the loop stars exactly the ASCII digits that are not among the last characters kept |
| Privacy.NumbersTellPattern | src/domain/entity.rs:97-109 | two lists of values are numbered alike iff the same of their members are equal |
| Privacy.MaskedLineTellsOnlyPattern | src/service/pipeline.rs:190-239 | texts with equal gaps, types and pattern of equal canonical forms have the same placeholder-masked line |
| Privacy.PartialMaskTells | src/service/mask.rs:67-79 | any two originals have one partial mask iff they have one length and differ only in starred digits and stars |
| Resolve.ResolveAll | src/service/resolve.rs:12-83 | the sweep loop with its in-place replacement of the last selected candidate; each entity has its candidate's type, span, score and, recursively, components |
| Resolve.OneResolved | src/service/resolve.rs:13-20 | a single candidate is selected iff its score reaches the configured threshold, or 0.6 |
| Resolve.TwoResolved | src/service/resolve.rs:28-71 | of two overlapping candidates: the ADDRESS that overlaps a component of the other, else by check sum, priority (50 by default), scores more than 2 to the power -23 apart, length, else the first |
| Resolve.StepSafe | src/service/resolve.rs:25-45 | a new candidate that is not an empty one at the very start of the last selected can overlap only that one, and disjointness is kept |
| Resolve.ResolveSafe | src/service/resolve.rs:12-52 | the result is above threshold, sorted and pairwise disjoint, unless an empty candidate follows a non-empty one with the same start |
| Resolve.SortHarmless | src/service/resolve.rs:22-23 | the stable sort keeps that condition, so it can be checked on the candidates as they come |
| Resolve.EmptySpanBreaksSweep | src/service/resolve.rs:12-52 | for every non-empty candidate, an empty one at its start and any third one that starts inside it, all above their thresholds: `resolve` returns all three, overlapping |
| Resolve.AWinsIsLexicographic | src/service/resolve.rs:56-71 | on scores that differ by more than the epsilon or not at all, the preference compares check sum, priority, score and length lexicographically |
| Resolve.AWinsStrictWeakOrder | src/service/resolve.rs:56-71 | the preference is a strict weak order on the candidates iff no three of them, alike in check sum and priority, have a middle score within the epsilon of two others that are further apart, with lengths that do not grow with the scores |
| Resolve.SeparatedOrderly | src/service/resolve.rs:56-71 | scores that differ by more than the epsilon or not at all give no such three |
| Resolve.AWinsCanCycle | src/service/resolve.rs:12-71 | on arbitrary scores it has cycles: on three candidates above the default threshold `resolve` drops one that beats the survivor |
| Resolve.ResolveDominates | src/service/resolve.rs:28-45 | if no three candidates above their thresholds are so inverted, none of them beats the survivor of its cluster, to which overlaps link it, unless an ADDRESS absorbed it |
| Document.New | src/domain/document.rs:43-80 | the nested loops build folded text and map; fast texts are borrowed with an empty map |
| Document.PushFolded | src/domain/document.rs:59-71 | the inner loops push the folded characters and one entry for each of their bytes |
| Document.AlignForwardLoop | src/domain/document.rs:102-107 | the alignment loop |
| Document.OffsetMapRight | src/domain/document.rs:53-107 | one entry per folded byte and a sentinel, monotone, only character boundaries, so alignment never moves |
| Document.ToOriginalOfImages | src/domain/document.rs:83-96 | a range between images of characters maps to exactly those characters, so adjacent ranges map to adjacent spans |
| Document.SliceFoldsBack | src/domain/document.rs:53-100 | folding the original slice of such a range gives the folded text of the range |
| Document.RangeCoversImages | src/domain/document.rs:83-96 | any range covers every character whose image lies inside and touches none whose image lies outside |
| Document.FastRefinesSlow | src/domain/document.rs:43-51 | on fast texts both paths agree on the folded text and, exactly on in-range offsets, on translation |
| Document.EmptyMapIffFast | src/domain/document.rs:83-87 | the map is empty exactly on the fast path |
| Document.SentinelRightIffShort | src/domain/document.rs:73 | the end of the text is mapped right iff the text is shorter than 4 GiB |
| Document.FoldByCodePoint | src/domain/document.rs:122-132 | which characters folding replaces, and by what, by code points |
| Document.FoldInThreePasses | src/domain/document.rs:59-71 | folding character by character is folding the whole text in three passes: compatibility forms, lower case, single characters |
| Document.FastByCodePoint | src/domain/document.rs:116-118 | the map is left out exactly for printable ASCII without capitals |
| Document.WidthByCodePoint | src/domain/document.rs:62-66 | how many bytes a character takes, by code points |
| Document.AlignsToNext | src/domain/document.rs:102-107 | alignment gives the next character boundary |
| Document.RangeCutOff | src/domain/document.rs:88-91 | a range beyond the folded text is cut off at its end |
| Document.EmptySpanIff | src/domain/document.rs:83-96 | a non-empty range of the folded text translates to an empty span iff it lies inside what one character was folded to and ends before that does |
| Session.GuardService.MaskRequest | src/service/guard_service.rs:76-183 | reply and vault after a mask call, in every mode and failure |
| Session.GuardService.ProcessTz | src/service/guard_service.rs:192-249 | reply and vault after a call of the one-endpoint contract |
| Session.GuardService.DemaskRequest | src/service/guard_service.rs:252-319 | reply and vault after a demask call, in every mode and failure |
| Session.MaskCallAnswers | src/service/guard_service.rs:101-183 | over every configuration, rights and vault: a mask call answers its own text on dry runs only and the pipeline's line otherwise; when it fails and why; when a context is returned; what is written |
| Session.ContextOpens | src/service/guard_service.rs:156-170 | a returned context opens for its own session and system, to this call's mapping, and for no other |
| Session.TzCallAnswers | src/service/guard_service.rs:192-249 | the one-endpoint call answers from a mapping iff demasking is allowed and the vault can be read and holds one for this id and system; otherwise it is a mask call |
| Session.DemaskCallAnswers | src/service/guard_service.rs:252-319 | a demask call demasks, or fails for the first reason that applies, and deletes its entry iff so configured |
| Session.DemaskedOnce | src/service/guard_service.rs:309-311 | after a demask call the session is gone if entries are deleted, and can be demasked again if not |
| Session.EvictedUnknown | src/service/guard_service.rs:289-294 | an evicted session is unknown to the next demask call |
| Session.PayloadContract | src/service/guard_service.rs:185-228 | until an event threatens the entry, the payload always gets its first answer, the answer gets the payload, and neither writes |
| Session.RunKeeps | src/service/guard_service.rs:192-249 | no run without a threatening event changes an entry |
| Session.RepliesAreOwn | src/service/guard_service.rs:230-249 | every reply from a stored mapping comes from one this system stored under this id from its own payload |
| Session.LastMaskWins | src/service/guard_service.rs:142-172 | of several texts masked under one session only the last mapping stays |
| Session.EarlierStringBackIff | src/controller/proxy_handler.rs:122-156 | under any policy, what an earlier string of the session demasks to after the last one was masked: its placeholder values are its own iff each of its keys was filed by the last one with the same original, and if it files placeholders only, that is the whole string |
| Session.SharedSessionMixesValues | src/controller/proxy_handler.rs:122-156 | two strings that are one value each, of one type: the first comes back as the second |
| Session.ServiceRoundTrip | src/service/guard_service.rs:252-319 | demasking through the vault inverts masking through it, unrecorded values as their masks, whatever other sessions did in between |
| JsonPaths.ExtractRec | src/service/json_paths.rs:84-120 | the recursion appends the extracted strings in order |
| JsonPaths.ReplaceRec | src/service/json_paths.rs:183-216 | the in-place recursion computes the replaced value and the closure's last state |
| JsonPaths.ReplaceExtracts | src/service/json_paths.rs:84-216 | extraction after replacement is the closure run over the extraction before, in order and with its state |
| JsonPaths.ExtractFinds | src/service/json_paths.rs:84-120 | a string is extracted iff it stands at a location on the path |
| JsonPaths.ReplaceKeepsRest | src/service/json_paths.rs:183-216 | at every location off the path the node is unchanged; on it only strings change, to strings |
| JsonPaths.ReplacesCommute | config/config.yaml:175 | replacements along paths of different length commute, with stateful closures |
| JsonPaths.NothingRewrittenTwice | config/config.yaml:175 | after replacing along one path, a path of another length still extracts the untouched strings |
| PathParser.ParsePath | src/service/json_paths.rs:15-81 | the index loop terminates and computes the grammar of tokens |
| PathParser.ParseInvertsPrint | src/service/json_paths.rs:15-81 | every printed path, dotted, bracketed or mixed, parses to itself |
| PathParser.JunkIgnored | src/service/json_paths.rs:74-77 | characters outside tokens are passed over |
| PathParser.LooseTokens | src/service/json_paths.rs:27-77 | a missing closing bracket does not matter, and empty keys and indices give no segment |
| PathParser.BlanksIgnored | src/service/json_paths.rs:15-19 | blanks around a path do not matter |
| PathParser.NoDollar | src/service/json_paths.rs:17-19 | a path that does not begin with the dollar sign is rejected |
| PathParser.BadTail | src/service/json_paths.rs:38-71 | an unclosed quote or an index beyond 64 bits, after any valid path, rejects the whole |
| RateLimit.TokenBucket.Take | src/infra/rate_limit.rs:27-39 | refill, capping and taking a token, in place |
| RateLimit.RateLimiter.Check | src/infra/rate_limit.rs:62-74 | one call: the system's bucket and the answer; no other bucket changes |
| RateLimit.RunConsistent | src/infra/rate_limit.rs:27-39 | over any run tokens stay within the capacity |
| RateLimit.AdmissionBound | src/infra/rate_limit.rs:27-39 | between two calls T seconds apart at most rps * (1 + T) requests of a system are admitted |
| RateLimit.FirstCallsAdmitted | src/infra/rate_limit.rs:16-39 | a system that has not called before gets its first rps calls admitted, whoever else calls, and at one instant exactly these |
| RateLimit.UnlimitedAdmitted | src/infra/rate_limit.rs:62-65 | a rate of zero admits every call |
| RateLimit.ClockWentBack | src/infra/rate_limit.rs:27-39 | a clock that went back refills nothing |
| RateLimit.SystemsIndependent | src/infra/rate_limit.rs:62-74 | a system's bucket after any run is the one it would have without the other systems |
| RateLimit.WaitSuffices | src/infra/rate_limit.rs:35-38 | a call made after the returned wait, with none between, is admitted |
| RateLimit.RetryAfterSuffices | src/controller/process_handler.rs:80-85 | the header is one second, never shorter than the wait, and waiting for it suffices |
| Breaker.CircuitBreaker.Allow | src/adapter/circuit_breaker.rs:39-57 | one admission decision and the state after it |
| Breaker.CircuitBreaker.Record | src/adapter/circuit_breaker.rs:68-90 | one recorded result, with reset and opening |
| Breaker.CounterBelowWindow | src/adapter/circuit_breaker.rs:68-81 | between calls the counter is below the window and counts the records modulo it |
| Breaker.OpeningsApart | src/adapter/circuit_breaker.rs:68-90 | at least a window of records separates two openings |
| Breaker.StateHistory | src/adapter/circuit_breaker.rs:39-90 | closed exactly until the first opening; the stamp is the last opening's |
| Breaker.RefusalsAndReopening | src/adapter/circuit_breaker.rs:39-57 | refusals only within the open time of the last opening; never closed again |
| Breaker.RefusedIff | src/adapter/circuit_breaker.rs:39-57 | a caller is refused exactly within the open seconds of the last opening, unless an earlier caller came after them |
| Breaker.OpensIff | src/adapter/circuit_breaker.rs:68-90 | the breaker opens exactly at the end of a window of records whose failures reach the ratio |
| Breaker.FailuresConserved | src/adapter/circuit_breaker.rs:68-81 | under every interleaving of atomic steps recorded failures are those swapped out plus those still counted |
| Breaker.SoloRecord | src/adapter/circuit_breaker.rs:68-90 | uninterrupted, the atomic steps are the sequential record |
| Breaker.SoloAllow | src/adapter/circuit_breaker.rs:39-57 | uninterrupted, the atomic steps of an admission are the sequential one |
| Breaker.ConcurrentOpeningsCollide | src/adapter/circuit_breaker.rs:68-90 | on a fresh breaker with ratio one half and window 2, three failed records interleaved open it twice |
| Breaker.OpeningsPaid | src/adapter/circuit_breaker.rs:68-90 | in every interleaving of any threads, openings times the ratio times the window never exceed the failures recorded |
| PolicyLayers.ResolvePolicy | src/config/loader.rs:354-438 | layer selection, merging and errors in the code's order |
| PolicyLayers.MergeTypes | src/config/loader.rs:450-457 | the merge loop over a system's overrides |
| PolicyLayers.BuildPolicy | src/config/loader.rs:548-571 | the loop over the types of the merged profile |
| PolicyLayers.EnableAddressComponents | src/config/loader.rs:576-604 | the loop that adds the address parts |
| PolicyLayers.MostSpecificLayerDecides | src/config/loader.rs:354-604 | a type is effective, with that layer's mask, iff the most specific layer mentioning it does not disable it; the exact exception for address parts |
| PolicyLayers.LayersAre | src/config/loader.rs:373-421 | the layers and their order: the system's override for the route, the route's types, the system's overrides, and the profile of the route, the system or the defaults |
| PolicyLayers.ResolveAnswers | src/config/loader.rs:354-438 | who is refused and why; when answers may be demasked; and the action, by the most specific setting |
| PolicyLayers.MaskedAsConfigured | src/config/loader.rs:548-571 | what a value of an effective type is shown as and whether it is recorded, for each mask name and for any other, by the characters shown |
| PolicyLayers.LayersDecideOutsideAddress | src/config/loader.rs:376-419 | outside the address parts the layers alone decide |
| PolicyLayers.Compile | src/config/loader.rs:207-221 | the precomputed table is faithful and covers every system and route that resolves |
| PolicyLayers.PolicyResolver.Swap | src/service/policy_resolver.rs:24-26 | installing a configuration keeps the resolver faithful |
| PolicyLayers.PolicyResolver.ResolveCached | src/service/policy_resolver.rs:28-39 | the cached answer is the direct one on the installed configuration, errors included |
| Combination.Apply | src/service/combination.rs:10-79 | the filters in their order keep exactly the entities of the specification, in order |
| Combination.StaysIff | src/service/combination.rs:10-78 | an entity stays iff it is of an always-masked type when there are fewer distinct types than asked for, and otherwise its type has no rule or the rule finds what it requires, anywhere or within its window of starts |
| Combination.ApplyMonotone | src/service/combination.rs:10-79 | more entities never drop one that stayed, if at most one distinct type is asked for or every always-masked type meets its own rule alone |
| CombinationLaws.MonotoneIff | src/service/combination.rs:10-79 | a rule set is monotone on all inputs iff it satisfies that condition |
| Combination.AlwaysWithRuleNotMonotone | src/service/combination.rs:15-37 | an instance without that condition: a second entity drops the first |
| Combination.ApplyIdempotent | src/service/combination.rs:10-79 | applying the rules twice changes nothing more, if required types have no rule and at most one distinct type is asked for |
| Combination.ChainedRulesNotIdempotent | src/service/combination.rs:30-71 | a rule on a required type makes the second pass drop more |
| CombinationLaws.IdempotentIff | src/service/combination.rs:10-79 | rules of document scope settle in one pass on all inputs iff at most one distinct type is asked for and each rule is still met by what stays of its least sets of types, or every ruled type meets its rule alone |
| Checksums.CheckLuhn | src/service/detect/validators.rs:8-26 | the loop from the right decides the Luhn sum |
| Checksums.CheckDigitUnique | src/service/mask.rs:178-192 | at any length exactly one appended digit validates, the generated one |
| Checksums.SingleErrorCaught | src/service/detect/validators.rs:8-26 | every single-digit error is caught |
| Checksums.AdjacentSwapCaught | src/service/detect/validators.rs:8-26 | a swap of neighbours passes iff they are equal or 0 and 9 |
| Checksums.GenerateCard | src/service/mask.rs:170-200 | every seed gives sixteen digits in four groups that pass the Luhn check |
| Checksums.SeedDigitsOfSeed | src/service/mask.rs:172-177 | the digits drawn from a seed are its lowest decimal digits |
| Checksums.SyntheticCardValid | src/service/mask.rs:170-200 | grouping a number with its check digit keeps it valid, at any length |
| Checksums.Inn12ValidIffSynthetic | src/service/detect/validators.rs:91-113 | a 12-digit number is valid iff it is the synthetic one of its first ten digits |
| Checksums.ControlsAre | src/service/detect/validators.rs:91-113 | a 12-digit number is valid iff its last digits are the control digits of the two weighted sums, weight by weight |
| Checksums.GenerateInn | src/service/mask.rs:211-226 | every seed gives twelve digits that pass the check |

## Left out

- Detectors, named-entity recognition and relevance filters: an arbitrary source of candidates; the early exit for texts without signals is the case of no candidates, and the leak self-check only counts.
- Positions in `Pipeline` count characters; bytes are modelled in `Document` only. Spans of detectors lie on character boundaries there by `Document.OffsetMapRight`.
- The classes `\d` and `\s`, `to_lowercase` and NFKC: parameters with the few facts the proofs need.
- 32-bit overflow of placeholder numbers and of the breaker's counters, and the cast of the breaker's window: numbers are unbounded, the window is the one after the cast. The 32-bit offsets of `Document` are modelled.
- Floating point: scores, tokens, ratios and times are real numbers, so the rounding of waits to nanoseconds is not modelled.
- Cryptography and serialisation: a sealed mapping opens exactly for its session and system, and comes back as it was.
- Session.PayloadContract: an entry lives until an eviction event, which may come at any time; the vault's own time-to-live and size rules are not modelled.
- Session.RepliesAreOwn: is about the vault; contexts that stateless clients carry themselves are only opened for their session and system.
- Session.EarlierStringBackIff: is about lines without an opening square bracket in what can come back, and assumes that no other mask of the last string occurs in what the first pass leaves of the earlier one; where one does, the second pass replaces it there.
- Inversion.MixedRoundTrip: token and synthetic masks depend on hash values, which are arbitrary functions here; with them only Inversion.LineRoundTrip applies, whose conditions are on where the second pass finds the masks.
- InputRoundTrip.RoundTripFromInput: where a redacted value stands before a partially masked one, its stars may make up the mask, so the place of each mask is a condition there.
- Inversion.RoundTripIffLastSpelling: where one cannot see where the values end, texts with different values can agree by accident, so only one direction holds there. SharedMapping.OtherLineIff and Exactness.BackIffKeysAreText have the same condition for the same reason.
- Inversion.MixedRoundTripIffAtHome: assumes that partially masked values hold no star themselves, since a star that was there before is indistinguishable from a mask's.
- Exactness.BackIffKeysAreText: is about lines that record placeholders only; what accidental keys leave of a partially masked line is only counted, by Inversion.AccidentalKeysStandOutside.
- CombinationLaws.IdempotentIff: is about rules of document scope; with windows Combination.ApplyIdempotent gives one direction, since there the distances of the entities decide as well.
- Resolve.ResolveSafe: assumes that no span ends before it starts, as the byte map guarantees.
- Heavy texts: the detour through a blocking thread masks with a fresh numbering as the direct path does, so it is not a separate case.
- PolicyLayers.MostSpecificLayerDecides: of a merged profile only types, masks, address mode, demasking and action are modelled; recognition, filter and combination settings are merged by the code in the same way. Types are a set, since the code collects them from hash maps.
- Synthetic telephone numbers and names, SNILS, ten-digit INN, dates: only easy or finite facts.
- Asynchronous replacement in `src/service/json_paths.rs` has the traversal of the synchronous one.
- HTTP, routing, upstream calls, configuration files, metrics, logging and clocks; times are inputs.
