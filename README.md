# track_changes in Dafny

A model of the two classes at the heart of the `track_changes` Ruby library:

- `TrackChanges::Tracker` (lib/track_changes.rb). It is a ledger of submitted
  versions plus an ordered list of attribution segments (SAME, INSERT,
  DELETE), updated by `add_version`. The model follows the code as it is
  written:
  - a submission onto an empty ledger installs one SAME segment for the whole
    text, without a diff; that is the first submission and, from then on,
    every odd-numbered one, because the merge loop leaves a one-segment ledger
    empty;
  - a submission onto a non-empty ledger diffs against the previous version,
    turns the diff into version segments, and runs the merge loop;
  - the merge loop's per-type branches are empty and its `new_segments` is
    never stored, so the loop only drains segments from the head of the
    ledger.

  The ledger examples in spec/track_changes_spec.rb expect a merged ledger. The code does not produce one, and the model follows the code.
- `TrackChanges::CollapseHtml` (lib/track_changes/html.rb). This is the
  preprocessor that replaces each HTML tag or entity with one placeholder
  character. Placeholders are drawn from a per-instance counter that starts at
  U+AC00 (44032). `expand` puts the tags back.

Layout:

- `wrappers.dfy`: module `Wrappers`, an `Option` type for Ruby's `nil`.
- `sequences.dfy`: module `Sequences`, small facts about prefixes, slices and
  concatenations of sequences that the proofs of the other modules call on.
- `track_changes.dfy`: module `TrackChanges`. It holds the `Version` and
  `Segment` records, the fold of a diff into segments, the specification
  function `Accumulate` of the ledger update, and the class `Tracker`, whose
  methods update `versions` and `segments` in place.
- `html.dfy`: module `TrackChangesHtml`. It holds:
  - the tag regex as an explicit scanner (`TagAt`, `Tokens`);
  - the placeholder dictionary as a value (`Dictionary`, `Intern`,
    `CollapsePieces`, `ExpandInOrder`) with its invariants;
  - Ruby's reading of a `gsub!` replacement string (`Interpolate`, `Gsub`,
    `GsubInOrder`), which the code as written applies to each tag;
  - the class `CollapseHtml`, whose `collapse`, `expand` and `push` are proved
    against those functions;
  - the round trip and the library's own examples.

Where the library's description and the code differ, the code is followed:

- A diff's unchanged runs keep the diff library's own tag. The code copies
  `element[0]` unchanged, so the segment gets `:equal`, not `Segment::SAME`;
  this is `Kind.Equal` in the model.
- A DELETE version segment has length 0 and carries the removed text verbatim.
- No merge takes place.
- `expand` hands each tag to `gsub!` as a replacement string, so backslash
  sequences in a tag are interpreted rather than copied. The model's
  `CollapseHtml.Expand` reinstates tags literally, which is what the method
  is for; the code as written is modelled beside it (see "## Findings").

## Model

| member | source | states |
|---|---|---|
| TrackChanges.Tracker.constructor | lib/track_changes.rb:16-19 | A new tracker has no versions and no segments. |
| TrackChanges.Tracker.AddVersion | lib/track_changes.rb:21-25 | The new version is appended after the ledger update unless the update raised MalformedSegments, in which case the history is unchanged. The ledger becomes what `Accumulate` leaves. From any state the public interface reaches, submission never fails, and the ledger alternates between empty and one SAME segment for the latest version. |
| TrackChanges.Tracker.AccumulateSegments | lib/track_changes.rb:29-67 | Does not touch the history. Its result and the new ledger are exactly `Accumulate` of the old ledger. Merged version segments span the new text exactly. |
| TrackChanges.Accumulate | lib/track_changes.rb:29-67 | An empty ledger, and only an empty one, gets one SAME segment for the whole version; any other ledger ends in a merge or a failure. Otherwise the ledger loses its head: the leading DELETEs plus the first other segment, or one segment when the diff is empty. It fails exactly when the diff is non-empty and every ledger segment is a DELETE, and then the ledger is left empty. A merge returns the segments of the diff. |
| TrackChanges.Tracker.Flush | lib/track_changes.rb:46-54 | Moves the run of DELETE segments that starts at the current segment into `flushed`; a current segment that is not a DELETE stays. It stops at the first non-DELETE segment, which becomes current and leaves the ledger, or at `None` once the ledger is exhausted. |
| TrackChanges.LeadingDeletes | lib/track_changes.rb:49-52 | The length of the maximal DELETE prefix: every segment before it is DELETE, and the one at it is not. |
| TrackChanges.Tracker.NextSegmentWithLength | lib/track_changes.rb:70-84 | Returns a segment only if `after` occurs in the ledger. The result has positive length, and everything between the first occurrence and the result has length 0. It returns none if and only if `after` is nil, or absent, or followed only by zero-length segments. |
| TrackChanges.IndexOf | lib/track_changes.rb:72-78 | The first occurrence of a segment in the ledger, or its size if the segment is absent. |
| TrackChanges.Tracker.AddSameSegment | lib/track_changes.rb:86-88 | Appends exactly one SAME segment of the version, spanning its text. |
| TrackChanges.SameSegment | lib/track_changes.rb:87 | SAME type, the version as owner, no deleted text, length equal to the text's length. |
| TrackChanges.SegmentOf | lib/track_changes.rb:97-101 | The diff tag is copied and the new version owns the segment. A removal has length 0 and keeps the removed text verbatim. Any other operation has the length of its text and no deleted text. |
| TrackChanges.SegmentsFromDiff | lib/track_changes.rb:96-103 | One segment per diff operation, in the diff's order, the i-th made from the i-th operation. |
| TrackChanges.DiffSegmentsSpanTexts | lib/track_changes.rb:96-103 | The lengths of the version segments add up to the diff's new text. Their unchanged runs and retained removals add up to its old text. |
| TrackChanges.DiffSegmentsMatchVersions | lib/track_changes.rb:90-104 | For a diff from the previous version's text to the new version's text, the segments cover the new text and account for the previous text exactly. |
| TrackChangesHtml.CollapseHtml.constructor | lib/track_changes/html.rb:13-17 | Empty maps and a counter at 44032 (U+AC00): the fresh, coherent dictionary. |
| TrackChangesHtml.Fresh | lib/track_changes/html.rb:13-17 | The fresh dictionary is coherent and has no entries. |
| TrackChangesHtml.CollapseHtml.Push | lib/track_changes/html.rb:41-51 | A tag already seen returns its placeholder and changes nothing. A new tag gets the counter's code point, is recorded in both maps, and the counter advances by one. Coherence is kept. |
| TrackChangesHtml.Intern | lib/track_changes/html.rb:41-51 | Both maps stay mutual inverses, and the placeholders issued are exactly U+AC00 up to the counter. Earlier entries are kept. A known tag changes nothing. A new tag gets the counter, which no earlier tag holds. |
| TrackChangesHtml.CollapseHtml.Collapse | lib/track_changes/html.rb:22-26 | Needs room below U+D800 for one placeholder per tag of the input. The output and the new state are `CollapsePieces` of the scan of the input. Coherence is kept and every earlier tag keeps its placeholder. |
| TrackChangesHtml.CollapsePieces | lib/track_changes/html.rb:22-26 | Needs room for one placeholder per tag piece. One output character per scanned piece. The dictionary stays coherent and issues at most one placeholder per tag piece. |
| TrackChangesHtml.TagCount | lib/track_changes/html.rb:23-24 | The number of tag pieces, the most placeholders a scan can call `push` for, is at most the number of pieces. |
| TrackChangesHtml.TagCountAppend | lib/track_changes/html.rb:23-24 | The tag count of two scans joined is the sum of their tag counts. |
| TrackChangesHtml.CollapseAppend | lib/track_changes/html.rb:23-25 | Collapsing two piece lists one after the other on the same dictionary is collapsing their concatenation: the outputs are joined and the final dictionary is the second one's. |
| TrackChangesHtml.CollapseStands | lib/track_changes/html.rb:22-26 | Position by position, a character of the input stands for itself and a tag stands for its placeholder in the final dictionary. Every tag the starting dictionary knew keeps its placeholder. |
| TrackChangesHtml.Find | lib/track_changes/html.rb:23 | The first position at or after the start holding the character, or none if there is none. |
| TrackChangesHtml.TagAt | lib/track_changes/html.rb:23 | A match at a position spans at least two characters and stays within the text. |
| TrackChangesHtml.TagAtIsMatch | lib/track_changes/html.rb:23 | The scanner matches exactly the pattern: a prefix at the position is a tag or entity if and only if the scanner ends it there. |
| TrackChangesHtml.TokensCover | lib/track_changes/html.rb:23 | The scanned pieces spell out the input exactly: nothing is dropped, added or reordered. |
| TrackChangesHtml.TokensAreTags | lib/track_changes/html.rb:23 | Every tag piece of a scan matches the pattern. |
| TrackChangesHtml.Tokens | lib/track_changes/html.rb:23 | The scan from a position yields no more pieces than characters remain, and yields none exactly when no character remains. |
| TrackChangesHtml.Tokenize | lib/track_changes/html.rb:23 | A scan has no more pieces than the text has characters. |
| TrackChangesHtml.CollapseHtml.Expand | lib/track_changes/html.rb:31-37 | The result replaces each issued placeholder, in the order issued, with its tag taken literally. When no tag holds a backslash, this is exactly what the `gsub!` passes as written produce. For text whose placeholders expand to placeholder-free tags, it is one simultaneous substitution. Text without placeholders comes back unchanged. |
| TrackChangesHtml.ReplaceAll | lib/track_changes/html.rb:34 | The replacement adds nothing of its own: no occurrence of the placeholder survives unless the tag holds it, and every character of the result comes from the tag or is a different character of the text. |
| TrackChangesHtml.ReplaceAllCharacterised | lib/track_changes/html.rb:34 | Every occurrence of the placeholder is replaced by the tag, taken literally: the placeholder alone becomes the tag, any other character stays, and the replacement distributes over concatenation, which fixes it on every text. |
| TrackChangesHtml.ExpandInOrder | lib/track_changes/html.rb:33-35 | When no tag holds a placeholder, no placeholder from the pass's starting point on survives; any placeholder left lies below it and was already in the text. |
| TrackChangesHtml.ExpandIsSubstitute | lib/track_changes/html.rb:31-37 | The in-order literal replacement passes amount to one simultaneous substitution by the placeholder map, whenever no tag holds a placeholder. |
| TrackChangesHtml.ReplaceAfterSubstitute | lib/track_changes/html.rb:33-35 | One more literal replacement pass after a substitution that never produces its character is a substitution by the larger map. |
| TrackChangesHtml.Escape | lib/track_changes/html.rb:34 | Ruby's reading of one backslash pair in a replacement string invents nothing: every character it gives comes from the text before, at or after the match, or from the escape itself. |
| TrackChangesHtml.Interpolate | lib/track_changes/html.rb:34 | A replacement without backslashes is left unchanged, and the result holds no character that is in neither the replacement nor the text around the match. The function defines Ruby's reading of a replacement string: `\0` and `\&` give the match, `` \` `` and `\'` the text before and after it, `\\` one backslash, and `\1` to `\9` and `\+` (the last group) nothing, since a string pattern has no groups. |
| TrackChangesHtml.GsubFrom | lib/track_changes/html.rb:34 | `gsub!` with a one-character pattern leaves text without that character unchanged, and every character of its result comes from the text or the replacement. |
| TrackChangesHtml.Gsub | lib/track_changes/html.rb:34 | `gsub!(char, tag)` as written: text without the placeholder is left as it is, and the result holds only characters of the text and of the tag. `GsubLiteral` shows it is the literal replacement for a backslash-free tag, and `BackslashTagAsWritten` that it is not otherwise. |
| TrackChangesHtml.GsubInOrder | lib/track_changes/html.rb:33-35 | `expand`'s loop as written, one `gsub!` per issued placeholder in the order issued: text holding none of the placeholders passes through unchanged. `GsubInOrderLiteral` shows it equals the literal passes when no tag holds a backslash, and `BackslashTagAsWritten` exhibits a tag where it does not. |
| TrackChangesHtml.GsubLiteral | lib/track_changes/html.rb:34 | `gsub!` with a backslash-free replacement is the literal replacement `ReplaceAll`. |
| TrackChangesHtml.GsubInOrderLiteral | lib/track_changes/html.rb:33-35 | The `gsub!` passes as written equal the literal passes whenever no tag holds a backslash. |
| TrackChangesHtml.CollapseThenExpandAsWritten | lib/track_changes/html.rb:22-37 | With `expand` as written, `expand(collapse(s)) == s` holds for text free of the issued placeholders whose tags hold no backslash. |
| TrackChangesHtml.BackslashTagAsWritten | lib/track_changes/html.rb:34 | The tag `<a\0>` is collapsed to U+AC00, and `expand` as written turns it into `<a` U+AC00 `>`, not the tag; the literal expansion gives the tag back. |
| TrackChangesHtml.SubstitutePieces | lib/track_changes/html.rb:31-37 | Substituting the placeholders of a collapsed piece list gives back the pieces' text, and no tag contains a placeholder. |
| TrackChangesHtml.CollapseThenExpand | lib/track_changes/html.rb:22-37 | On one collapser with room for the text's tags, `expand(collapse(s)) == s` for any text that holds none of the placeholders the collapser has issued. |
| TrackChangesHtml.PlaceholderInInput | lib/track_changes/html.rb:22-37 | The condition above is needed: U+AC00 followed by `<a>` collapses, on a fresh collapser, to two U+AC00 characters, which expand to `<a><a>`. |
| TrackChangesHtml.CollapseKnown | lib/track_changes/html.rb:42-43 | Collapsing pieces whose tags are all known leaves the dictionary as it was. |
| TrackChangesHtml.CollapseTwice | spec/track_changes_spec.rb:162-165 | With room for the text's tags twice over, collapsing the same text twice on one collapser gives the same output and the same dictionary. Repeated tags keep their placeholder. |
| TrackChangesHtml.CollapsePiecesTwice | lib/track_changes/html.rb:41-51 | Collapsing a piece list a second time issues nothing new and gives the same output. |
| TrackChangesHtml.TokenizeSimpleTag | spec/track_changes_spec.rb:141-143 | `<a>bcd</a>` scans as `<a>`, b, c, d, `</a>`. |
| TrackChangesHtml.CollapseTwoTags | spec/track_changes_spec.rb:141-143 | A collapser with no tags gives two distinct tags around three characters its next two placeholders. |
| TrackChangesHtml.CollapseSimpleTag | spec/track_changes_spec.rb:141-143 | A fresh collapser turns `<a>bcd</a>` into U+AC00 `bcd` U+AC01. |
| TrackChangesHtml.TokenizeEntity | spec/track_changes_spec.rb:153-155 | `<a>bc&nbsp;d</a>` scans as `<a>`, b, c, `&nbsp;`, d, `</a>`. |
| TrackChangesHtml.CollapseThreeTags | spec/track_changes_spec.rb:153-155 | A collapser with no tags gives three distinct tags their next three placeholders, in order of appearance. |
| TrackChangesHtml.TokenizeReusedTags | spec/track_changes_spec.rb:149-151 | `<a>bc<b/>d</a>eded<a></a>` scans as `<a>`, b, c, `<b/>`, d, `</a>`, e, d, e, d, `<a>`, `</a>`. |
| TrackChangesHtml.CollapseReusedTags | spec/track_changes_spec.rb:149-151 | A fresh collapser turns `<a>bc<b/>d</a>eded<a></a>` into U+AC00 `bc` U+AC01 `d` U+AC02 `eded` U+AC00 U+AC02: tags seen before reuse their placeholder. |
| TrackChangesHtml.CollapseEntity | spec/track_changes_spec.rb:153-155 | A fresh collapser turns `<a>bc&nbsp;d</a>` into U+AC00 `bc` U+AC01 `d` U+AC02. |

## Left out

- The diff library (`DiffMatchPatch#diff_main` and `diff_cleanupSemantic`) is not part of this model.
  - `TrackChanges.Tracker.AddVersion` and `TrackChanges.Tracker.AccumulateSegments` take the diff as an argument instead.
  - They require it to describe the change from the previous version's text to the new text.
  - The cleanup pass and the choice among valid diffs are not modelled.
- `puts diffs.inspect` is console output and is left out.
- The merge outcomes and `to_s`: the source's merge branches are empty. The splitting and merging of segments, and the trace string built from the ledger, are not part of this code and are not modelled.
- The commented-out call to `next_segment_with_length` inside `accumulate_segments` is not modelled as a call. `NextSegmentWithLength` is modelled on its own.
- `TrackChanges.Tracker.NextSegmentWithLength` compares segments structurally, where Ruby compares segment objects by identity. When the ledger holds two equal but distinct segments, the model finds the first of them.
- The payload object is a type parameter. Ruby's default `nil` payload is not a separate case.
- `TrackChanges.Accumulate`: when the flush loop runs out of segments, the model gives one failure outcome, `MalformedSegments`. The Ruby code reads `type` of `nil` at that point. Under Ruby 1.8 that value is `NilClass`, the loop ends, and `MalformedSegments` is raised. Under later Rubies it raises `NoMethodError` instead. Which exception is raised is not modelled.
- `TrackChangesHtml.CollapseHtml.Expand` returns a new string. Ruby's `gsub!` rewrites the caller's string in place, so the argument is changed as well. That aliasing is not modelled.
- `TrackChangesHtml.CollapseHtml.Collapse` requires the counter plus the number of tags in the input to stay at or below U+D800. Placeholders are Dafny characters. From U+D800 the code points are UTF-16 surrogates, which are not characters, so past that bound the placeholders would no longer be the unbroken run of characters from U+AC00. Ruby's counter has no bound.
- `TrackChangesHtml.CollapseHtml.Push` requires room below U+D800 when the tag is new, for the same reason.
- `TrackChangesHtml.CollapseHtml.Expand` performs the literal reinstatement the method evidently intends. The code as written passes each tag to `gsub!` as a replacement string; that reading is modelled separately by `GsubInOrder` and agrees with `Expand` whenever no tag holds a backslash (see "## Findings").
- `ExpandIsSubstitute` is about the literal replacement passes of `Expand`, not the `gsub!` passes as written. For tags with no backslash the two coincide by `GsubInOrderLiteral`.
- `ReplaceAfterSubstitute` is likewise about the literal replacement `ReplaceAll`. For a backslash-free tag it equals `gsub!` by `GsubLiteral`.
- `TrackChangesHtml.CollapseHtml.Expand` and `TrackChangesHtml.GsubInOrder` take the placeholders in the order issued. That is the iteration order of `@chars` only under Ruby 1.9 and later, whose hashes keep insertion order; the library's test setup loads SimpleCov, which needs Ruby 1.9 or later. For text whose tags hold no placeholder the order does not matter, by `ExpandIsSubstitute`. Two lines below describe what Ruby 1.8 does where later Rubies raise an error instead; the model is otherwise written for Ruby 1.9 and later.
- `TrackChangesHtml.Interpolate` keeps `\k<` literally, as Ruby 1.8 does; later Rubies raise an error for a named back-reference in a string-pattern replacement. The Ruby regex engine itself is not part of this model.
- `TrackChangesHtml.CollapsePieces` does not state that every dictionary entry it adds comes from a tag of its input. `CollapseStands` states only that the entries it is given are kept and that each tag of the input is present.
- Ruby's regex engine and `Array#pack('U*')` are represented by the explicit scanner `TagAt` and by the character with the counter's code point.

## Findings

| source | as written | input that shows it | evidently intended | confidence | as-written member | corrected member |
|---|---|---|---|---|---|---|
| lib/track_changes/html.rb:34 | `html.gsub!(char, tag)` reads the tag as a replacement string, so `\0`, `\&`, `` \` ``, `\'`, `\\`, `\+` and `\1` to `\9` inside a tag are interpreted | collapsing `<a\0>` gives U+AC00, and expanding that gives `<a` U+AC00 `>` instead of `<a\0>` | each tag is put back character for character, so `expand(collapse(s)) == s` | high, not executed | TrackChangesHtml.BackslashTagAsWritten | TrackChangesHtml.CollapseThenExpand |
