/** A managed block between marker lines in a user's TOML file. */
module TomlBlock {
  import opened Wrappers
  import opened Text

  /** The parts of a spec that decide content. */
  datatype Spec = Spec(start: string, end: string, isManagedTable: seq<string> -> bool, buildBlock: string -> string)

  // ---------- lines ----------

  /** `split("\n")`; never empty. */
  function Lines(text: string): (lines: seq<string>)
    ensures lines != []
  {
    if text == [] then [""]
    else if text[0] == '\n' then [""] + Lines(text[1..])
    else var rest := Lines(text[1..]); [[text[0]] + rest[0]] + rest[1..]
  }

  /** `join("\n")` */
  function Unlines(lines: seq<string>): string {
    if lines == [] then "" else if |lines| == 1 then lines[0] else lines[0] + "\n" + Unlines(lines[1..])
  }

  lemma {:induction false} UnlinesLines(text: string)
    ensures Unlines(Lines(text)) == text
  {
    if text != [] {
      UnlinesLines(text[1..]);
      var rest := Lines(text[1..]);
      if text[0] == '\n' {
        assert Lines(text)[1..] == rest;
        assert text == [text[0]] + text[1..];
      } else {
        var lines := Lines(text);
        assert lines[1..] == rest[1..] && lines[0] == [text[0]] + rest[0];
        assert Unlines(lines) == [text[0]] + Unlines(rest);
      }
    }
  }

  /** Dropping lines from the front drops a prefix of the text, newlines included, and keeps the rest verbatim. */
  lemma {:induction false} DropLines(lines: seq<string>, cut: nat)
    requires 0 < cut < |lines|
    ensures Unlines(lines) == Unlines(lines[..cut]) + "\n" + Unlines(lines[cut..])
  {
    if cut == 1 {
      assert lines[..1] == [lines[0]];
    } else {
      DropLines(lines[1..], cut - 1);
      assert lines[..cut][1..] == lines[1..][..cut - 1] && lines[cut..] == lines[1..][cut - 1..];
    }
  }

  predicate IsHeader(line: string) {
    Starts(TrimStart(line), "[")
  }

  predicate IsFiller(line: string) {
    Trim(line) == "" || Starts(TrimStart(line), "#")
  }

  // ---------- recovery ----------

  /** The next header at or after `from`, or the end. */
  function TableEnd(lines: seq<string>, from: nat): (end: nat)
    requires from <= |lines|
    ensures from <= end <= |lines|
    ensures forall i | from <= i < end :: !IsHeader(lines[i])
    ensures end < |lines| ==> IsHeader(lines[end])
    decreases |lines| - from
  {
    if from < |lines| && !IsHeader(lines[from]) then TableEnd(lines, from + 1) else from
  }

  predicate Managed(spec: Spec, lines: seq<string>, header: nat)
    requires header < |lines|
  {
    spec.isManagedTable(lines[header..TableEnd(lines, header + 1)])
  }

  /** The first header from `index` on whose table is not ours, or the end. */
  function FirstForeign(spec: Spec, lines: seq<string>, index: nat): (r: nat)
    requires index <= |lines|
    ensures index <= r <= |lines|
    decreases |lines| - index
  {
    if index == |lines| then index
    else if !IsHeader(lines[index]) then FirstForeign(spec, lines, index + 1)
    else if Managed(spec, lines, index) then FirstForeign(spec, lines, TableEnd(lines, index + 1))
    else index
  }

  lemma {:induction false} FirstForeignIs(spec: Spec, lines: seq<string>, index: nat)
    requires index <= |lines|
    ensures var r := FirstForeign(spec, lines, index);
            && (forall h | index <= h < r && IsHeader(lines[h]) :: Managed(spec, lines, h))
            && (r < |lines| ==> IsHeader(lines[r]) && !Managed(spec, lines, r))
    decreases |lines| - index
  {
    hide IsHeader, Managed;
    if index < |lines| {
      if !IsHeader(lines[index]) {
        FirstForeignIs(spec, lines, index + 1);
      } else if Managed(spec, lines, index) {
        FirstForeignIs(spec, lines, TableEnd(lines, index + 1));
      }
    }
  }

  /** Steps back over blank and comment lines, but never onto the marker line. */
  function LeadingFiller(lines: seq<string>, cut: nat): (r: nat)
    requires cut <= |lines|
    ensures r <= cut && (1 <= cut ==> 1 <= r)
    ensures forall i | r <= i < cut :: IsFiller(lines[i])
    ensures r > 1 ==> !IsFiller(lines[r - 1])
  {
    if cut > 1 && IsFiller(lines[cut - 1]) then LeadingFiller(lines, cut - 1) else cut
  }

  function Recovered(spec: Spec, base: string, start: nat): string
    requires start <= |base|
  {
    var lines := Lines(base[start..]);
    base[..start] + Unlines(lines[LeadingFiller(lines, FirstForeign(spec, lines, 1))..])
  }

  method StripOrphanedManagedBlock(spec: Spec, base: string, start: nat) returns (r: string)
    requires start <= |base|
    ensures r == Recovered(spec, base, start)
  {
    hide IsHeader, IsFiller;
    var before := base[..start];
    var lines := Lines(base[start..]);
    var cut := |lines|;
    var index := 1;
    while index < |lines|
      invariant 1 <= index <= |lines| && cut == |lines|
      invariant FirstForeign(spec, lines, index) == FirstForeign(spec, lines, 1)
      decreases |lines| - index
    {
      if !IsHeader(lines[index]) {
        index := index + 1;
        continue;
      }
      var end := index + 1;
      while end < |lines| && !IsHeader(lines[end])
        invariant index + 1 <= end <= |lines|
        invariant TableEnd(lines, end) == TableEnd(lines, index + 1)
        decreases |lines| - end
      {
        end := end + 1;
      }
      if spec.isManagedTable(lines[index..end]) {
        index := end;
        continue;
      }
      cut := index;
      break;
    }
    ghost var foreign := cut;
    while cut > 1 && IsFiller(lines[cut - 1])
      invariant 1 <= cut <= |lines|
      invariant LeadingFiller(lines, cut) == LeadingFiller(lines, foreign)
    {
      cut := cut - 1;
    }
    return before + Unlines(lines[cut..]);
  }

  /** Lines before `cut` go and those from it on stay; `foreign` is the first table that is not ours. */
  predicate Recovers(spec: Spec, lines: seq<string>, cut: nat, foreign: nat) {
    && 1 <= cut <= foreign <= |lines|
    && (forall h | 1 <= h < foreign && IsHeader(lines[h]) :: Managed(spec, lines, h))
    && (forall i | cut <= i < foreign :: IsFiller(lines[i]))
    && (cut > 1 ==> !IsFiller(lines[cut - 1]))
    && (foreign < |lines| ==> IsHeader(lines[foreign]) && !Managed(spec, lines, foreign))
  }

  /** An unterminated block: everything before it stays, our tables up to the first foreign one go, the rest stays verbatim. */
  lemma RecoveryKeeps(spec: Spec, base: string, start: nat)
    requires start <= |base|
    ensures var lines := Lines(base[start..]);
            exists cut: nat, foreign: nat :: Recovers(spec, lines, cut, foreign)
              && Recovered(spec, base, start) == base[..start] + Unlines(lines[cut..])
              && (cut < |lines| ==> base[start..] == Unlines(lines[..cut]) + "\n" + Unlines(lines[cut..]))
  {
    hide IsHeader, IsFiller, Managed;
    var lines := Lines(base[start..]);
    var foreign := FirstForeign(spec, lines, 1);
    var cut := LeadingFiller(lines, foreign);
    FirstForeignIs(spec, lines, 1);
    UnlinesLines(base[start..]);
    if cut < |lines| {
      DropLines(lines, cut);
    }
    assert Recovers(spec, lines, cut, foreign);
    assert Recovered(spec, base, start) == base[..start] + Unlines(lines[cut..]);
  }

  // ---------- stripping and merging ----------

  function IndexOf(text: string, pattern: string, from: nat): (i: int)
    requires from <= |text|
    ensures i == -1 || (from <= i && OccursAt(text, pattern, i))
    ensures forall j | from <= j && (i == -1 || j < i) :: !OccursAt(text, pattern, j)
    decreases |text| - from
  {
    if OccursAt(text, pattern, from) then from
    else if from == |text| then -1
    else IndexOf(text, pattern, from + 1)
  }

  function Stripped(spec: Spec, existing: string): string {
    var start := IndexOf(existing, spec.start, 0);
    if start == -1 then existing
    else
      var end := IndexOf(existing, spec.end, start);
      if end != -1 then existing[..start] + existing[end + |spec.end|..] else Recovered(spec, existing, start)
  }

  method StripManagedBlock(spec: Spec, existing: string) returns (r: string)
    ensures r == Stripped(spec, existing)
  {
    hide Recovered;
    var start := IndexOf(existing, spec.start, 0);
    if start == -1 {
      return existing;
    }
    var end := IndexOf(existing, spec.end, start);
    if end != -1 {
      return existing[..start] + existing[end + |spec.end|..];
    }
    r := StripOrphanedManagedBlock(spec, existing, start);
  }

  /** The user's part of the file. */
  function Base(spec: Spec, existing: string): string {
    TrimEnd(Stripped(spec, existing))
  }

  function Assembled(base: string, block: string): string {
    if block == "" then if |base| > 0 then base + "\n" else ""
    else if |base| > 0 then base + "\n\n" + block + "\n"
    else block + "\n"
  }

  function Merged(spec: Spec, existing: string): string {
    Assembled(Base(spec, existing), spec.buildBlock(Base(spec, existing)))
  }

  function Removed(spec: Spec, existing: string): Option<string> {
    if Base(spec, existing) == "" then None else Some(Base(spec, existing) + "\n")
  }

  class TomlFile {
    const spec: Spec
    var content: Option<string>

    constructor (spec: Spec, content: Option<string>)
      ensures this.spec == spec && this.content == content
    {
      this.spec, this.content := spec, content;
    }

    /** A file that would hold nothing is not written. */
    method Ensure()
      modifies this
      ensures var merged := Merged(spec, old(content).GetOr(""));
              content == if merged == "" then old(content) else Some(merged)
      ensures var base := Base(spec, old(content).GetOr(""));
              var block := spec.buildBlock(base);
              if base == "" && block == "" then content == old(content)
              else
                && content.Some?
                && content.value == (if base == "" then block else if block == "" then base else base + "\n\n" + block) + "\n"
    {
      var stripped := StripManagedBlock(spec, content.GetOr(""));
      var base := TrimEnd(stripped);
      var merged := Assembled(base, spec.buildBlock(base));
      if merged == "" {
        return;
      }
      content := Some(merged);
    }

    method Remove()
      modifies this
      ensures content == if old(content).None? then None else Removed(spec, old(content).value)
    {
      if content.None? {
        return;
      }
      var stripped := StripManagedBlock(spec, content.value);
      var base := TrimEnd(stripped);
      content := if |base| == 0 then None else Some(base + "\n");
    }
  }

  // ---------- laws ----------

  /** Markers without line breaks; the block runs from its start marker to its only end marker. */
  predicate BlockFits(spec: Spec, block: string) {
    && spec.start != "" && '\n' !in spec.start && Starts(block, spec.start)
    && IndexOf(block, spec.end, 0) == |block| - |spec.end| >= 0
  }

  predicate StartFree(spec: Spec, text: string) {
    IndexOf(text, spec.start, 0) == -1
  }

  lemma IndexIs(text: string, pattern: string, from: nat, i: nat)
    requires from <= i <= |text| && OccursAt(text, pattern, i)
    requires forall j | from <= j < i :: !OccursAt(text, pattern, j)
    ensures IndexOf(text, pattern, from) == i
  {
  }

  /** A marker without line breaks lies wholly before them or wholly behind. */
  lemma NoStraddle(base: string, gap: string, rest: string, pattern: string, j: nat)
    requires pattern != "" && '\n' !in pattern && (forall c | c in gap :: c == '\n') && (gap == "" ==> base == "")
    requires OccursAt(base + gap + rest, pattern, j) && j < |base| + |gap|
    ensures OccursAt(base, pattern, j)
  {
    var text, n := base + gap + rest, |pattern|;
    assert forall k | |base| <= k < |base| + |gap| :: text[k] == gap[k - |base|] && gap[k - |base|] in gap;
    assert forall k | j <= k < j + n :: text[k] == pattern[k - j] && pattern[k - j] in pattern;
    var k := if j < |base| then |base| else j;
    assert text[k] == '\n';
    assert j + n <= |base|;
    assert base[j..j + n] == text[j..j + n];
  }

  /** The start marker is found where the block begins, behind a base without one. */
  lemma StartFound(spec: Spec, base: string, gap: string, block: string, tail: string)
    requires BlockFits(spec, block) && StartFree(spec, base)
    requires (forall c | c in gap :: c == '\n') && (gap == "" ==> base == "")
    ensures IndexOf(base + gap + block + tail, spec.start, 0) == |base| + |gap|
  {
    var text := base + gap + block + tail;
    var at, n := |base| + |gap|, |spec.start|;
    assert text[at..at + n] == block[..n] == spec.start;
    assert text == base + gap + (block + tail);
    forall j | 0 <= j < at ensures !OccursAt(text, spec.start, j) {
      if OccursAt(text, spec.start, j) {
        NoStraddle(base, gap, block + tail, spec.start, j);
      }
    }
    IndexIs(text, spec.start, 0, at);
  }

  lemma EndFound(spec: Spec, base: string, block: string, tail: string)
    requires BlockFits(spec, block)
    ensures IndexOf(base + block + tail, spec.end, |base|) == |base| + |block| - |spec.end|
  {
    var text := base + block + tail;
    var m := |spec.end|;
    var at := |base| + |block| - m;
    assert text[at..at + m] == block[|block| - m..] == spec.end;
    forall j | |base| <= j < at ensures !OccursAt(text, spec.end, j) {
      assert text[j..j + m] == block[j - |base|..j - |base| + m];
      assert !OccursAt(block, spec.end, j - |base|);
    }
    IndexIs(text, spec.end, |base|, at);
  }

  lemma {:induction false} TrimGap(base: string, gap: string)
    requires forall c | c in gap :: IsSpace(c)
    ensures TrimEnd(base + gap) == TrimEnd(base)
    decreases |gap|
  {
    if gap == [] {
      assert base + gap == base;
    } else {
      var s := base + gap;
      assert s[|s| - 1] == gap[|gap| - 1] && gap[|gap| - 1] in gap;
      assert s[..|s| - 1] == base + gap[..|gap| - 1];
      TrimGap(base, gap[..|gap| - 1]);
    }
  }

  lemma {:induction false} TrimmedTwice(s: string)
    ensures TrimEnd(TrimEnd(s)) == TrimEnd(s)
  {
    if s != [] && IsSpace(s[|s| - 1]) {
      TrimmedTwice(s[..|s| - 1]);
    }
  }

  lemma BaseOfBlock(spec: Spec, base: string, gap: string, block: string)
    requires StartFree(spec, base) && TrimEnd(base) == base && BlockFits(spec, block)
    requires (forall c | c in gap :: c == '\n') && (gap == "" ==> base == "")
    ensures Base(spec, base + gap + block + "\n") == base
  {
    hide IndexOf, OccursAt, Recovered, TrimEnd;
    var text := base + gap + block + "\n";
    StartFound(spec, base, gap, block, "\n");
    EndFound(spec, base + gap, block, "\n");
    assert |spec.end| <= |block|;
    assert text[..|base| + |gap|] == base + gap && text[|base| + |gap| + |block|..] == "\n";
    assert Stripped(spec, text) == base + (gap + "\n");
    TrimGap(base, gap + "\n");
  }

  /** The first block of a text is cut out, and what stands before and behind it is kept. */
  lemma FirstBlockCut(spec: Spec, front: string, block: string, back: string)
    requires BlockFits(spec, block) && IndexOf(front + block + back, spec.start, 0) == |front|
    ensures Stripped(spec, front + block + back) == front + back
  {
    hide IndexOf, OccursAt, Recovered;
    var text := front + block + back;
    EndFound(spec, front, block, back);
    StrippedAt(spec, text, |front|, |front| + |block| - |spec.end|);
    assert text[..|front|] == front && text[|front| + |block|..] == back;
  }

  lemma BaseOfLine(spec: Spec, base: string)
    requires StartFree(spec, base) && TrimEnd(base) == base && spec.start != "" && '\n' !in spec.start
    ensures Base(spec, base + "\n") == base
  {
    var text := base + "\n";
    assert text + "" == text;
    forall j: nat ensures !OccursAt(text, spec.start, j) {
      if OccursAt(text, spec.start, j) {
        NoStraddle(base, "\n", "", spec.start, j);
      }
    }
    TrimGap(base, "\n");
  }

  /** Markers are usable whatever the block, which is empty or fits. */
  predicate SpecFits(spec: Spec, block: string) {
    spec.start != "" && '\n' !in spec.start && (block == "" || BlockFits(spec, block))
  }

  /** Whatever was merged, the user's part is still what it was. */
  lemma BaseOfAssembled(spec: Spec, base: string, block: string)
    requires StartFree(spec, base) && TrimEnd(base) == base && SpecFits(spec, block)
    ensures Base(spec, Assembled(base, block)) == base
  {
    hide Base, BlockFits, StartFree, TrimEnd;
    if block == "" {
      if base == "" {
        NothingInEmpty(spec);
      } else {
        BaseOfLine(spec, base);
      }
    } else if base == "" {
      BaseOfBlock(spec, base, "", block);
      assert base + "" + block + "\n" == block + "\n";
    } else {
      BaseOfBlock(spec, base, "\n\n", block);
    }
  }

  lemma NothingInEmpty(spec: Spec)
    requires spec.start != ""
    ensures Base(spec, "") == ""
  {
  }

  /** Merging again changes nothing. */
  lemma MergeTwice(spec: Spec, existing: string)
    requires var base := Base(spec, existing); StartFree(spec, base) && SpecFits(spec, spec.buildBlock(base))
    ensures Merged(spec, Merged(spec, existing)) == Merged(spec, existing)
  {
    hide Stripped, StartFree, SpecFits;
    TrimmedTwice(Stripped(spec, existing));
    BaseOfAssembled(spec, Base(spec, existing), spec.buildBlock(Base(spec, existing)));
  }

  /** Removing after merging is removing alone. */
  lemma RemoveAfterMerge(spec: Spec, existing: string)
    requires var base := Base(spec, existing); StartFree(spec, base) && SpecFits(spec, spec.buildBlock(base))
    ensures Removed(spec, Merged(spec, existing)) == Removed(spec, existing)
  {
    hide Stripped, StartFree, SpecFits;
    TrimmedTwice(Stripped(spec, existing));
    BaseOfAssembled(spec, Base(spec, existing), spec.buildBlock(Base(spec, existing)));
  }

  lemma {:induction false} TrimIsPrefix(s: string)
    ensures TrimEnd(s) <= s
  {
    if s != [] && IsSpace(s[|s| - 1]) {
      TrimIsPrefix(s[..|s| - 1]);
    }
  }

  lemma PrefixStartFree(spec: Spec, text: string, prefix: string)
    requires StartFree(spec, text) && prefix <= text
    ensures StartFree(spec, prefix)
  {
    forall j: nat | OccursAt(prefix, spec.start, j) ensures OccursAt(text, spec.start, j) {
      assert text[j..j + |spec.start|] == prefix[j..j + |spec.start|];
    }
  }

  /** So a text without markers comes back up to trailing white space. */
  lemma RemoveRestores(spec: Spec, text: string)
    requires StartFree(spec, text) && SpecFits(spec, spec.buildBlock(TrimEnd(text)))
    ensures Removed(spec, Merged(spec, text)) == if TrimEnd(text) == "" then None else Some(TrimEnd(text) + "\n")
  {
    hide SpecFits;
    TrimIsPrefix(text);
    PrefixStartFree(spec, text, TrimEnd(text));
    RemoveAfterMerge(spec, text);
  }

  // ---------- exactly when ----------

  /** Markers without line breaks, each once in the block, at its two ends. */
  predicate Marked(spec: Spec, block: string) {
    && BlockFits(spec, block) && TrimEnd(block) == block
    && spec.end != "" && '\n' !in spec.end
    && forall j | 0 < j <= |block| :: !OccursAt(block, spec.start, j)
  }

  /** Cutting a marked region in front of `v` and appending a block behind it never gives the text back. */
  lemma {:induction false} NoRotation(spec: Spec, block: string, cut: string, v: string)
    requires Marked(spec, block) && |cut| == |block| + 2
    requires cut[..|spec.start|] == spec.start && cut[|cut| - |spec.end|..] == spec.end
    ensures v + ("\n\n" + block) != cut + v
    decreases |v|
  {
    hide TrimEnd, IndexOf;
    var w, n := "\n\n" + block, |cut|;
    if v + w == cut + v {
      if |v| >= n {
        assert v[..n] == (v + w)[..n] == cut;
        assert v == cut + v[n..];
        assert cut + (v[n..] + w) == v + w == cut + (cut + v[n..]);
        assert (cut + (v[n..] + w))[n..] == (cut + (cut + v[n..]))[n..];
        NoRotation(spec, block, cut, v[n..]);
      } else {
        var q := n - |v|;
        assert cut == (cut + v)[..n] == v + w[..q];
        assert v == (cut + v)[n..] == (v + w)[n..] == w[q..];
        RotatedAway(spec, block, cut, q);
      }
    }
  }

  /** A marked region is no rotation of the separated block. */
  lemma RotatedAway(spec: Spec, block: string, cut: string, q: nat)
    requires Marked(spec, block) && |cut| == |block| + 2 && 0 < q <= |cut|
    requires cut[..|spec.start|] == spec.start && cut[|cut| - |spec.end|..] == spec.end
    ensures cut != ("\n\n" + block)[q..] + ("\n\n" + block)[..q]
  {
    hide TrimEnd, IndexOf;
    var w, n, k := "\n\n" + block, |cut|, |spec.start|;
    var front, other := w[q..], w[q..] + w[..q];
    assert cut[n - 1] == spec.end[|spec.end| - 1] && spec.end[|spec.end| - 1] in spec.end;
    if q <= 2 {
      assert other[n - 1] == w[q - 1] == '\n';
    } else if |front| < k {
      assert other[|front|] == w[0] == '\n';
      assert cut[|front|] == cut[..k][|front|] && spec.start[|front|] in spec.start;
    } else {
      assert front == block[q - 2..];
      assert other[..k] == front[..k];
      assert front[..k] == block[q - 2..q - 2 + k];
      assert !OccursAt(block, spec.start, q - 2);
    }
  }

  /** The block is found behind a base without line-broken markers, whether or not the base holds one. */
  lemma FirstInBase(base: string, rest: string, pattern: string, from: nat)
    requires pattern != "" && '\n' !in pattern && base != "" && from <= |base|
    requires rest != "" && rest[0] == '\n'
    ensures IndexOf(base, pattern, from) != -1 ==> IndexOf(base + rest, pattern, from) == IndexOf(base, pattern, from)
    ensures IndexOf(base, pattern, from) == -1 ==>
              forall j | from <= j <= |base| :: !OccursAt(base + rest, pattern, j)
  {
    var text, i := base + rest, IndexOf(base, pattern, from);
    assert text == base + "\n" + rest[1..];
    forall j: nat | from <= j <= |base| && OccursAt(text, pattern, j) ensures OccursAt(base, pattern, j) {
      NoStraddle(base, "\n", rest[1..], pattern, j);
    }
    if i != -1 {
      assert text[i..i + |pattern|] == base[i..i + |pattern|];
      IndexIs(text, pattern, from, i);
    }
  }

  /** What stripping leaves when the found markers are at `p` and `e`. */
  lemma StrippedAt(spec: Spec, text: string, p: nat, e: nat)
    requires p <= |text| && IndexOf(text, spec.start, 0) == p && IndexOf(text, spec.end, p) == e
    ensures e + |spec.end| <= |text| && Stripped(spec, text) == text[..p] + text[e + |spec.end|..]
  {
  }

  lemma NotRestored(spec: Spec, block: string, head: string, cut: string, v: string)
    requires Marked(spec, block) && |cut| >= |spec.end|
    requires |cut| >= |spec.start| ==> cut[..|spec.start|] == spec.start
    requires cut[|cut| - |spec.end|..] == spec.end
    ensures head + (v + ("\n\n" + block)) != head + (cut + v)
  {
    hide Marked;
    var left, right := head + (v + ("\n\n" + block)), head + (cut + v);
    MarkedFits(spec, block);
    BlockHas(spec, block);
    if |cut| == |block| + 2 {
      NoRotation(spec, block, cut, v);
      assert left[|head|..] == v + ("\n\n" + block) && right[|head|..] == cut + v;
    } else {
      assert |left| != |right|;
    }
  }

  lemma MarkedFits(spec: Spec, block: string)
    ensures Marked(spec, block) ==> BlockFits(spec, block) && TrimEnd(block) == block
  {
  }

  lemma FoundAt(text: string, pattern: string, from: nat)
    requires from <= |text| && IndexOf(text, pattern, from) != -1
    ensures from <= IndexOf(text, pattern, from)
    ensures var i := IndexOf(text, pattern, from); i + |pattern| <= |text| && text[i..i + |pattern|] == pattern
  {
  }

  lemma EatenToEnd(spec: Spec, base: string, block: string, p: nat, e: nat)
    requires Marked(spec, block) && p <= |base| && IndexOf(base, spec.start, 0) == p && IndexOf(base, spec.end, p) == e
    ensures Base(spec, base + ("\n\n" + block + "\n")) != base
  {
    hide TrimEnd, BlockFits, Marked, Stripped, IndexOf;
    var rest, text, m := "\n\n" + block + "\n", base + ("\n\n" + block + "\n"), |spec.end|;
    MarkedFits(spec, block);
    BlockHas(spec, block);
    FoundAt(base, spec.start, 0);
    FoundAt(base, spec.end, p);
    MarkedEnd(spec, block);
    FirstInBase(base, rest, spec.start, 0);
    FirstInBase(base, rest, spec.end, p);
    StrippedAt(spec, text, p, e);
    var head, cut, v := base[..p], base[p..e + m], base[e + m..];
    var left := head + (v + ("\n\n" + block));
    assert text[..p] == head && text[e + m..] == v + rest;
    assert Stripped(spec, text) == left + "\n";
    TrimGap(left, "\n");
    KeepsEnd(head + (v + "\n\n"), block);
    assert left == head + (v + "\n\n") + block;
    NotRestored(spec, block, head, cut, v);
    assert base == head + (cut + v);
  }

  lemma MarkedEnd(spec: Spec, block: string)
    requires Marked(spec, block)
    ensures spec.end != "" && '\n' !in spec.end
  {
  }

  lemma EatenToBlock(spec: Spec, base: string, block: string, p: nat)
    requires Marked(spec, block) && p < |base| && IndexOf(base, spec.start, 0) == p && IndexOf(base, spec.end, p) == -1
    ensures Base(spec, base + ("\n\n" + block + "\n")) != base
  {
    hide TrimEnd, BlockFits, Marked, Stripped, IndexOf;
    var rest, text := "\n\n" + block + "\n", base + ("\n\n" + block + "\n");
    MarkedFits(spec, block);
    BlockHas(spec, block);
    FirstInBase(base, rest, spec.start, 0);
    EndBehind(spec, base, block, p);
    StrippedAt(spec, text, p, |base| + 2 + |block| - |spec.end|);
    assert text[..p] == base[..p] && text[|base| + 2 + |block|..] == "\n";
    TrimGap(base[..p], "\n");
    TrimIsPrefix(base[..p]);
  }

  /** With a start marker in the base, some of it is taken for the block. */
  lemma BaseEaten(spec: Spec, base: string, block: string)
    requires Marked(spec, block) && !StartFree(spec, base)
    ensures Base(spec, Assembled(base, block)) != base
  {
    hide Base, BlockFits, Marked, IndexOf;
    var p := IndexOf(base, spec.start, 0);
    MarkedFits(spec, block);
    BlockHas(spec, block);
    FoundAt(base, spec.start, 0);
    assert Assembled(base, block) == base + ("\n\n" + block + "\n");
    if IndexOf(base, spec.end, p) == -1 {
      EatenToBlock(spec, base, block, p);
    } else {
      FoundAt(base, spec.end, p);
      EatenToEnd(spec, base, block, p, IndexOf(base, spec.end, p));
    }
  }

  lemma BlockHas(spec: Spec, block: string)
    requires BlockFits(spec, block)
    ensures spec.start != "" && '\n' !in spec.start && |spec.start| <= |block| && |spec.end| <= |block| && block != ""
  {
  }

  /** Without an end marker in the base, the one found is the block's own. */
  lemma EndBehind(spec: Spec, base: string, block: string, p: nat)
    requires Marked(spec, block) && p <= |base| && base != "" && IndexOf(base, spec.end, p) == -1
    ensures IndexOf(base + ("\n\n" + block + "\n"), spec.end, p) == |base| + 2 + |block| - |spec.end|
  {
    hide TrimEnd, BlockFits, OccursAt;
    var rest := "\n\n" + block + "\n";
    var text, at := base + rest, |base| + 2 + |block| - |spec.end|;
    BlockHas(spec, block);
    FirstInBase(base, rest, spec.end, p);
    EndFound(spec, base + "\n\n", block, "\n");
    assert text == base + "\n\n" + block + "\n";
    forall j: nat | p <= j < at ensures !OccursAt(text, spec.end, j) {
      if |base| < j < |base| + 2 {
        LineBreakBefore(text, spec.end, j);
      }
    }
    IndexIs(text, spec.end, p, at);
  }

  lemma LineBreakBefore(text: string, pattern: string, j: nat)
    requires pattern != "" && '\n' !in pattern && j < |text| && text[j] == '\n'
    ensures !OccursAt(text, pattern, j)
  {
    if |text| - j >= |pattern| {
      assert text[j..j + |pattern|][0] == text[j];
    }
  }

  /** The user's part survives a merge exactly when it holds no start marker. */
  lemma BaseKeptIff(spec: Spec, base: string, block: string)
    requires Marked(spec, block) && TrimEnd(base) == base
    ensures Base(spec, Assembled(base, block)) == base <==> StartFree(spec, base)
  {
    hide TrimEnd, Base;
    BlockHas(spec, block);
    if StartFree(spec, base) {
      BaseOfAssembled(spec, base, block);
    } else {
      BaseEaten(spec, base, block);
    }
  }

  lemma AssembledInjective(a: string, b: string, block: string)
    requires Assembled(a, block) == Assembled(b, block) && block != ""
    ensures a == b
  {
    if a != "" && b != "" {
      assert |a| == |b|;
      assert a == Assembled(a, block)[..|a|];
    }
  }

  /** With a fixed block, merging settles at once exactly when the user's part holds no start marker. */
  lemma MergeSettlesIff(spec: Spec, existing: string, block: string)
    requires Marked(spec, block) && forall base :: spec.buildBlock(base) == block
    ensures Merged(spec, Merged(spec, existing)) == Merged(spec, existing) <==> StartFree(spec, Base(spec, existing))
  {
    hide Stripped, StartFree, Marked;
    var base := Base(spec, existing);
    TrimmedTwice(Stripped(spec, existing));
    BaseKeptIff(spec, base, block);
    MarkedNonempty(spec, block);
    if Merged(spec, Merged(spec, existing)) == Merged(spec, existing) {
      AssembledInjective(Base(spec, Merged(spec, existing)), base, block);
    }
  }

  lemma MarkedNonempty(spec: Spec, block: string)
    requires Marked(spec, block)
    ensures block != ""
  {
  }

  /** Removing undoes a merge exactly then, whatever block was built. */
  lemma RemoveUndoesIff(spec: Spec, existing: string)
    requires Marked(spec, spec.buildBlock(Base(spec, existing)))
    ensures Removed(spec, Merged(spec, existing)) == Removed(spec, existing) <==> StartFree(spec, Base(spec, existing))
  {
    hide Stripped, StartFree, Marked;
    var base, again := Base(spec, existing), Base(spec, Merged(spec, existing));
    TrimmedTwice(Stripped(spec, existing));
    BaseKeptIff(spec, base, spec.buildBlock(base));
    assert again + "\n" == base + "\n" ==> (again + "\n")[..|again|] == (base + "\n")[..|base|];
  }

  lemma KeepsEnd(front: string, s: string)
    requires s != "" && TrimEnd(s) == s
    ensures TrimEnd(front + s) == front + s
  {
    assert (front + s)[|front + s| - 1] == s[|s| - 1];
    assert !IsSpace(s[|s| - 1]) by {
      if IsSpace(s[|s| - 1]) {
        TrimIsPrefix(s[..|s| - 1]);
      }
    }
  }

  /** A file that holds the block twice: stripping removes the first, and the user's part keeps the second. */
  lemma SecondBlockStays(spec: Spec, block: string)
    requires Marked(spec, block)
    ensures Base(spec, block + "\n" + block) == "\n" + block && !StartFree(spec, Base(spec, block + "\n" + block))
  {
    hide TrimEnd, IndexOf, OccursAt, Recovered, Marked;
    var text, rest := block + "\n" + block, "\n" + block;
    MarkedFits(spec, block);
    MarkedNonempty(spec, block);
    EmptyStartFree(spec);
    assert "" + "" + block + rest == text && "" + block + rest == text;
    StartFound(spec, "", "", block, rest);
    EndFound(spec, "", block, rest);
    StrippedAt(spec, text, 0, |block| - |spec.end|);
    assert text[..0] + text[|block|..] == rest;
    KeepsEnd("\n", block);
    StartInRest(spec, block);
  }

  lemma EmptyStartFree(spec: Spec)
    requires spec.start != ""
    ensures StartFree(spec, "")
  {
  }

  lemma StartInRest(spec: Spec, block: string)
    requires BlockFits(spec, block)
    ensures !StartFree(spec, "\n" + block)
  {
    var rest, n := "\n" + block, |spec.start|;
    assert rest[1..1 + n] == block[..n];
    assert OccursAt(rest, spec.start, 1);
  }

  /** An input on which merging does not settle and removing does not undo it. */
  lemma MergeMayNotSettle() returns (spec: Spec, existing: string)
    ensures Merged(spec, Merged(spec, existing)) != Merged(spec, existing)
    ensures Removed(spec, Merged(spec, existing)) != Removed(spec, existing)
  {
    var block := "#<#>";
    spec := Spec("#<", "#>", path => false, base => block);
    existing := block + "\n" + block;
    assert block[0..2] == "#<" && block[1..3] == "<#" && block[2..4] == "#>";
    IndexIs(block, "#>", 0, 2);
    assert Marked(spec, block) by {
      assert !IsSpace(block[3]);
    }
    SecondBlockStays(spec, block);
    MergeSettlesIff(spec, existing, block);
    RemoveUndoesIff(spec, existing);
  }
}
