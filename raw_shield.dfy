// The raw-segment shield (index.ts, _extractRaws and _reInjectRaws): every
// `<raw>...</raw>` block is cut out of the document before parsing, replaced
// by a numbered placeholder, and put back after serialisation.
//
// The regular expression /\< *raw *\>(.*?)\<\/ *raw *\>/i is modelled by an
// explicit scanner: MatchAt tries the expression at one position, FindRaw
// returns the leftmost match, as String.prototype.match does.
module RawShield {
  import opened TextUtil

  /** One match of the raw-block expression: the opening tag is
      s[start..innerStart], the captured text s[innerStart..innerEnd], the
      closing tag s[innerEnd..end]. */
  datatype Block = Block(start: nat, innerStart: nat, innerEnd: nat, end: nat)

  /** Characters an opening or closing raw tag consists of after its `<`
      (or `</`): spaces, the letters of "raw" in either case, and `>`. */
  predicate TagChar(c: char)
  {
    c == ' ' || c == '>' || c == 'r' || c == 'R' || c == 'a' || c == 'A' || c == 'w' || c == 'W'
  }

  /** The tail ` *raw *\>` of a raw tag, read from position j in the given
      phase: 0 before the `r` (skipping spaces), 1 and 2 before the `a` and
      the `w`, 3 after the word (skipping spaces, waiting for `>`). The
      position just after the `>` if the tail matches. Letters match in
      either case, as the `i` flag has it. */
  function TagFrom(s: String, j: nat, phase: nat): (r: Option<nat>)
    requires j <= |s| && phase <= 3
    ensures r.Some? ==> j < r.value <= |s| && j + 4 <= r.value + phase
    decreases |s| - j
  {
    if j == |s| then None
    else
      var c := s[j];
      if phase == 0 then
        if c == ' ' then TagFrom(s, j + 1, 0) else if c == 'r' || c == 'R' then TagFrom(s, j + 1, 1) else None
      else if phase == 1 then
        if c == 'a' || c == 'A' then TagFrom(s, j + 1, 2) else None
      else if phase == 2 then
        if c == 'w' || c == 'W' then TagFrom(s, j + 1, 3) else None
      else
        if c == ' ' then TagFrom(s, j + 1, 3) else if c == '>' then Some(j + 1) else None
  }

  /** `\< *raw *\>` at p. */
  function OpenEnd(s: String, p: nat): (r: Option<nat>)
    requires p <= |s|
    ensures r.Some? ==> p < |s| && s[p] == '<' && p + 5 <= r.value <= |s|
  {
    if p < |s| && s[p] == '<' then TagFrom(s, p + 1, 0) else None
  }

  /** `\<\/ *raw *\>` at q. */
  function CloseEnd(s: String, q: nat): (r: Option<nat>)
    requires q <= |s|
    ensures r.Some? ==> q + 1 < |s| && s[q] == '<' && s[q + 1] == '/' && q + 6 <= r.value <= |s|
  {
    if q + 1 < |s| && s[q] == '<' && s[q + 1] == '/' then TagFrom(s, q + 2, 0) else None
  }

  /** The lazy `(.*?)` followed by the closing tag, from q: the first
      position where a closing tag starts, provided no line terminator comes
      before it. Returns the closing tag's start and end. */
  function ScanClose(s: String, q: nat): (r: Option<(nat, nat)>)
    requires q <= |s|
    ensures r.Some? ==> q <= r.value.0 && r.value.0 + 6 <= r.value.1 <= |s|
    decreases |s| - q
  {
    if CloseEnd(s, q).Some? then Some((q, CloseEnd(s, q).value))
    else if q == |s| || IsLineTerminator(s[q]) then None
    else ScanClose(s, q + 1)
  }

  /** The whole expression tried at position p. */
  function MatchAt(s: String, p: nat): (r: Option<Block>)
    requires p <= |s|
    ensures r.Some? ==> r.value.start == p < r.value.innerStart <= r.value.innerEnd < r.value.end <= |s|
    ensures r.Some? ==> s[p] == '<'
  {
    match OpenEnd(s, p)
    case None => None
    case Some(o) =>
      match ScanClose(s, o)
      case None => None
      case Some(qe) => Some(Block(p, o, qe.0, qe.1))
  }

  /** A block the scanner found at its start position. */
  predicate IsMatch(s: String, b: Block)
  {
    && b.start < b.innerStart <= b.innerEnd < b.end <= |s|
    && MatchAt(s, b.start) == Some(b)
  }

  /** No match starts at any position in [lo, hi). */
  predicate NoMatchBetween(s: String, lo: nat, hi: nat)
  {
    forall k :: lo <= k < hi && k <= |s| ==> NoMatchAt(s, k)
  }

  predicate NoMatchAt(s: String, k: nat)
    requires k <= |s|
  {
    MatchAt(s, k).None?
  }

  /** The leftmost match at or after p. */
  function FindFrom(s: String, p: nat): (r: Option<Block>)
    requires p <= |s|
    ensures r.Some? ==> p <= r.value.start < r.value.innerStart <= r.value.innerEnd < r.value.end <= |s|
    ensures r.Some? ==> s[r.value.start] == '<'
    decreases |s| - p
  {
    if p == |s| then None
    else
      var m := MatchAt(s, p);
      if m.Some? then m
      else FindFrom(s, p + 1)
  }

  /** FindFrom returns a match of the expression. */
  lemma {:induction false} FindFromIsMatch(s: String, p: nat)
    requires p <= |s| && FindFrom(s, p).Some?
    ensures IsMatch(s, FindFrom(s, p).value)
    decreases |s| - p
  {
    if MatchAt(s, p).None? {
      FindFromIsMatch(s, p + 1);
    }
  }

  /** The match FindFrom returns is the leftmost one. */
  lemma {:induction false} FindFromLeftmost(s: String, p: nat)
    requires p <= |s|
    ensures FindFrom(s, p).Some? ==> NoMatchBetween(s, p, FindFrom(s, p).value.start)
    ensures FindFrom(s, p).None? ==> NoMatchBetween(s, p, |s| + 1)
    decreases |s| - p
  {
    if p < |s| && MatchAt(s, p).None? {
      FindFromLeftmost(s, p + 1);
    }
  }

  /** String.prototype.match with the raw-block expression. */
  function FindRaw(s: String): (r: Option<Block>)
  {
    FindFrom(s, 0)
  }

  /** The placeholder that stands for the i-th raw block: `###RAW<i>###`. */
  function Placeholder(i: nat): (r: String)
    ensures |r| >= 7 && r[0] == '#' && '<' !in r
  {
    "###RAW" + NatToString(i) + "###"
  }

  /** The number of `<` characters, which every extraction step lowers. */
  function Angles(s: String): nat
  {
    multiset(s)['<']
  }

  lemma {:induction false} ReplaceLowersAngles(s: String, b: Block, i: nat)
    requires b.start < b.end <= |s| && s[b.start] == '<'
    ensures Angles(s[..b.start] + Placeholder(i) + s[b.end..]) < Angles(s)
  {
    assert s == s[..b.start] + s[b.start..b.end] + s[b.end..];
    assert s[b.start..b.end][0] == '<';
    assert multiset(Placeholder(i))['<'] == 0;
  }

  /** The loop of _extractRaws as a recursive function: while a raw block
      remains, record its inner text and replace the block by the next
      placeholder; each search starts again from the beginning. */
  function ExtractLoop(str: String, raws: seq<String>, i: nat): (String, seq<String>)
    decreases Angles(str)
  {
    match FindRaw(str)
    case None => (str, raws)
    case Some(b) =>
      ReplaceLowersAngles(str, b, i);
      ExtractLoop(str[..b.start] + Placeholder(i) + str[b.end..], raws + [str[b.innerStart..b.innerEnd]], i + 1)
  }

  // ---------------------------------------------------------------------
  // What the scanner reads.

  /** A raw tag after its `<` (or `</`) consists of tag characters only. */
  lemma {:induction false} TagFromChars(s: String, j: nat, phase: nat)
    requires j <= |s| && phase <= 3 && TagFrom(s, j, phase).Some?
    ensures forall k :: j <= k < TagFrom(s, j, phase).value ==> TagChar(s[k])
    decreases |s| - j
  {
    if !(phase == 3 && s[j] == '>') {
      TagFromChars(s, j + 1, if phase == 3 || (phase == 0 && s[j] == ' ') then phase else phase + 1);
    }
  }

  lemma {:induction false} OpenEndChars(s: String, p: nat)
    requires p <= |s| && OpenEnd(s, p).Some?
    ensures forall k :: p < k < OpenEnd(s, p).value ==> TagChar(s[k])
  {
    TagFromChars(s, p + 1, 0);
  }

  /** Positions with no closing tag and no line terminator are passed over. */
  lemma {:induction false} ScanCloseSkip(s: String, q: nat, r: nat)
    requires q <= r <= |s|
    requires forall k :: q <= k < r ==> CloseEnd(s, k).None? && !IsLineTerminator(s[k])
    ensures ScanClose(s, q) == ScanClose(s, r)
    decreases r - q
  {
    if q < r {
      ScanCloseSkip(s, q + 1, r);
    }
  }

  // ---------------------------------------------------------------------
  // A barrier: two strings that agree before position a and hold, at a, a
  // character no raw tag can continue with. Everything the scanner decides
  // before reaching a is then the same in both.

  predicate Stop(c: char)
  {
    !TagChar(c) && c != '/'
  }

  predicate Barrier(t: String, u: String, a: nat)
  {
    a < |t| && a < |u| && t[..a] == u[..a] && Stop(t[a]) && Stop(u[a])
  }

  lemma {:induction false} TagFromBarrier(t: String, u: String, a: nat, j: nat, phase: nat)
    requires Barrier(t, u, a) && j <= a && phase <= 3
    ensures TagFrom(t, j, phase) == TagFrom(u, j, phase)
    ensures TagFrom(t, j, phase).Some? ==> TagFrom(t, j, phase).value <= a
    decreases a - j
  {
    if j < a {
      assert t[j] == t[..a][j] == u[..a][j] == u[j];
      if !(phase == 3 && t[j] == '>') {
        TagFromBarrier(t, u, a, j + 1, if phase == 3 || (phase == 0 && t[j] == ' ') then phase else phase + 1);
      }
    }
  }

  lemma {:induction false} OpenEndBarrier(t: String, u: String, a: nat, p: nat)
    requires Barrier(t, u, a) && p < a
    ensures OpenEnd(t, p) == OpenEnd(u, p)
    ensures OpenEnd(t, p).Some? ==> OpenEnd(t, p).value <= a
  {
    assert t[p] == t[..a][p] == u[..a][p] == u[p];
    TagFromBarrier(t, u, a, p + 1, 0);
  }

  lemma {:induction false} CloseEndBarrier(t: String, u: String, a: nat, q: nat)
    requires Barrier(t, u, a) && q < a
    ensures CloseEnd(t, q) == CloseEnd(u, q)
  {
    assert t[q] == t[..a][q] == u[..a][q] == u[q];
    if q + 1 < a {
      assert t[q + 1] == t[..a][q + 1] == u[..a][q + 1] == u[q + 1];
      TagFromBarrier(t, u, a, q + 2, 0);
    }
  }

  /** The lazy scan either ends the same way in both strings before the
      barrier, or reaches the barrier in both. */
  lemma {:induction false} ScanCloseBarrier(t: String, u: String, a: nat, q: nat)
    requires Barrier(t, u, a) && q <= a
    ensures ScanClose(t, q) == ScanClose(u, q)
         || (ScanClose(t, q) == ScanClose(t, a) && ScanClose(u, q) == ScanClose(u, a))
    decreases a - q
  {
    if q < a {
      CloseEndBarrier(t, u, a, q);
      assert t[q] == t[..a][q] == u[..a][q] == u[q];
      if CloseEnd(t, q).None? && !IsLineTerminator(t[q]) {
        ScanCloseBarrier(t, u, a, q + 1);
      }
    }
  }

  /** Replacing the leftmost match by a placeholder that starts with `#` and
      holds no `<` creates no match before the end of the placeholder. */
  lemma {:induction false} ReplaceKeepsNoMatch(t: String, b: Block, ph: String, p: nat)
    requires IsMatch(t, b) && NoMatchBetween(t, 0, b.start)
    requires |ph| >= 1 && ph[0] == '#' && '<' !in ph
    requires p < b.start + |ph|
    ensures MatchAt(t[..b.start] + ph + t[b.end..], p).None?
  {
    var a := b.start;
    var u := t[..a] + ph + t[b.end..];
    if p < a {
      assert u[..a] == t[..a];
      assert u[a] == '#';
      assert Barrier(t, u, a);
      OpenEndBarrier(t, u, a, p);
      if OpenEnd(t, p).Some? {
        var o := OpenEnd(t, p).value;
        assert NoMatchAt(t, p);
        assert ScanClose(t, o).None?;
        ScanCloseBarrier(t, u, a, o);
        if ScanClose(t, o) != ScanClose(u, o) {
          // The scan from o would run into the matched block, whose inner
          // text ends at a closing tag: it could not have failed.
          OpenEndChars(t, a);
          forall k | a <= k < b.innerStart
            ensures CloseEnd(t, k).None? && !IsLineTerminator(t[k])
          {
            if k == a {
              assert TagChar(t[a + 1]);
            } else {
              assert TagChar(t[k]);
            }
          }
          ScanCloseSkip(t, a, b.innerStart);
          assert false;
        }
      }
    } else {
      assert u[p] == ph[p - a];
    }
  }

  // ---------------------------------------------------------------------
  // The scanner only looks forward: what it finds in y is what it finds in
  // x + y, shifted by |x|.

  function ShiftBlock(b: Block, n: nat): Block
  {
    Block(b.start + n, b.innerStart + n, b.innerEnd + n, b.end + n)
  }

  function ShiftOption(r: Option<Block>, n: nat): Option<Block>
  {
    if r.Some? then Some(ShiftBlock(r.value, n)) else None
  }

  lemma {:induction false} TagFromShift(x: String, y: String, k: nat, phase: nat)
    requires k <= |y| && phase <= 3
    ensures TagFrom(x + y, |x| + k, phase)
         == if TagFrom(y, k, phase).Some? then Some(|x| + TagFrom(y, k, phase).value) else None
    decreases |y| - k
  {
    if k < |y| {
      assert (x + y)[|x| + k] == y[k];
      if !(phase == 3 && y[k] == '>') {
        TagFromShift(x, y, k + 1, if phase == 3 || (phase == 0 && y[k] == ' ') then phase else phase + 1);
      }
    }
  }

  lemma {:induction false} CloseEndShift(x: String, y: String, k: nat)
    requires k <= |y|
    ensures CloseEnd(x + y, |x| + k) == if CloseEnd(y, k).Some? then Some(|x| + CloseEnd(y, k).value) else None
  {
    if k + 1 < |y| {
      TagFromShift(x, y, k + 2, 0);
    }
  }

  lemma {:induction false} ScanCloseShift(x: String, y: String, k: nat)
    requires k <= |y|
    ensures ScanClose(x + y, |x| + k)
         == if ScanClose(y, k).Some? then Some((|x| + ScanClose(y, k).value.0, |x| + ScanClose(y, k).value.1)) else None
    decreases |y| - k
  {
    CloseEndShift(x, y, k);
    if CloseEnd(y, k).None? && k < |y| && !IsLineTerminator(y[k]) {
      ScanCloseShift(x, y, k + 1);
    }
  }

  lemma {:induction false} OpenEndShift(x: String, y: String, k: nat)
    requires k <= |y|
    ensures OpenEnd(x + y, |x| + k) == if OpenEnd(y, k).Some? then Some(|x| + OpenEnd(y, k).value) else None
  {
    if k < |y| {
      assert (x + y)[|x| + k] == y[k];
      TagFromShift(x, y, k + 1, 0);
    }
  }

  lemma MatchAtStep(s: String, p: nat)
    requires p <= |s|
    ensures OpenEnd(s, p).None? ==> MatchAt(s, p).None?
    ensures OpenEnd(s, p).Some? && ScanClose(s, OpenEnd(s, p).value).None? ==> MatchAt(s, p).None?
    ensures OpenEnd(s, p).Some? && ScanClose(s, OpenEnd(s, p).value).Some? ==>
      MatchAt(s, p) == Some(Block(p, OpenEnd(s, p).value,
        ScanClose(s, OpenEnd(s, p).value).value.0, ScanClose(s, OpenEnd(s, p).value).value.1))
  {
  }

  lemma {:induction false} MatchAtShift(x: String, y: String, k: nat)
    requires k <= |y|
    ensures MatchAt(x + y, |x| + k) == ShiftOption(MatchAt(y, k), |x|)
  {
    OpenEndShift(x, y, k);
    MatchAtStep(y, k);
    MatchAtStep(x + y, |x| + k);
    if OpenEnd(y, k).Some? {
      MatchAtShiftOpen(x, y, k, OpenEnd(y, k).value);
    }
  }

  /** MatchAtShift once the opening tag is found at the same place. */
  lemma MatchAtShiftOpen(x: String, y: String, k: nat, o: nat)
    requires k <= |y| && OpenEnd(y, k) == Some(o)
    requires OpenEnd(x + y, |x| + k) == Some(|x| + o)
    ensures MatchAt(x + y, |x| + k) == ShiftOption(MatchAt(y, k), |x|)
  {
    ScanCloseShift(x, y, o);
    MatchAtStep(y, k);
    MatchAtStep(x + y, |x| + k);
  }

  lemma FindFromStep(s: String, p: nat)
    requires p <= |s|
    ensures p == |s| ==> FindFrom(s, p).None?
    ensures p < |s| ==> FindFrom(s, p) == if MatchAt(s, p).Some? then MatchAt(s, p) else FindFrom(s, p + 1)
  {
  }

  lemma FindFromShiftHit(x: String, y: String, k: nat)
    requires k < |y| && MatchAt(y, k).Some?
    ensures FindFrom(x + y, |x| + k) == ShiftOption(FindFrom(y, k), |x|)
  {
    MatchAtShift(x, y, k);
  }

  lemma FindFromShiftMiss(x: String, y: String, k: nat)
    requires k < |y| && MatchAt(y, k).None?
    ensures FindFrom(x + y, |x| + k) == FindFrom(x + y, |x| + k + 1)
    ensures FindFrom(y, k) == FindFrom(y, k + 1)
  {
    MatchAtShift(x, y, k);
  }

  lemma {:induction false} FindFromShift(x: String, y: String, k: nat)
    requires k <= |y|
    ensures FindFrom(x + y, |x| + k) == ShiftOption(FindFrom(y, k), |x|)
    decreases |y| - k
  {
    if k == |y| {
      assert FindFrom(y, k).None? && FindFrom(x + y, |x| + k).None?;
    } else if MatchAt(y, k).Some? {
      FindFromShiftHit(x, y, k);
    } else {
      FindFromShiftMiss(x, y, k);
      FindFromShift(x, y, k + 1);
    }
  }

  /** Positions where no match starts are passed over by the search. */
  lemma {:induction false} FindFromSkip(s: String, p: nat, m: nat)
    requires p <= m <= |s| && NoMatchBetween(s, p, m)
    ensures FindFrom(s, p) == FindFrom(s, m)
    decreases m - p
  {
    if p < m {
      assert NoMatchAt(s, p);
      FindFromStep(s, p);
      FindFromSkip(s, p + 1, m);
    }
  }

  // ---------------------------------------------------------------------
  // Reference view: the blocks of a text read left to right, each search
  // continuing after the previous block.

  /** The text with the i-th block (counting from `first`) replaced by
      Placeholder(first + i). */
  function Shielded(t: String, first: nat): String
    decreases |t|
  {
    match FindRaw(t)
    case None => t
    case Some(b) => t[..b.start] + Placeholder(first) + Shielded(t[b.end..], first + 1)
  }

  /** The inner texts of the blocks, left to right. */
  function Inners(t: String): seq<String>
    decreases |t|
  {
    match FindRaw(t)
    case None => []
    case Some(b) => [t[b.innerStart..b.innerEnd]] + Inners(t[b.end..])
  }

  /** The text with every block's opening and closing tag removed and its
      inner text kept verbatim. */
  function Stripped(t: String): String
    decreases |t|
  {
    match FindRaw(t)
    case None => t
    case Some(b) => t[..b.start] + t[b.innerStart..b.innerEnd] + Stripped(t[b.end..])
  }

  /** With no match starting in x, the leftmost match in x + y is the
      leftmost match in y. */
  lemma FindRawAfter(x: String, y: String)
    requires NoMatchBetween(x + y, 0, |x|)
    ensures FindRaw(x + y) == ShiftOption(FindRaw(y), |x|)
  {
    FindFromSkip(x + y, 0, |x|);
    FindFromShift(x, y, 0);
  }

  /** Replacing the leftmost match by a placeholder leaves no match before
      the placeholder's end. */
  lemma ReplaceKeepsNoMatchBefore(s: String, b: Block, ph: String)
    requires FindRaw(s) == Some(b)
    requires |ph| >= 1 && ph[0] == '#' && '<' !in ph
    ensures NoMatchBetween(s[..b.start] + ph + s[b.end..], 0, b.start + |ph|)
  {
    FindFromIsMatch(s, 0);
    FindFromLeftmost(s, 0);
    var u := s[..b.start] + ph + s[b.end..];
    forall p | 0 <= p < b.start + |ph| && p <= |u|
      ensures NoMatchAt(u, p)
    {
      ReplaceKeepsNoMatch(s, b, ph, p);
    }
  }

  lemma SplitAtShiftedBlock(x: String, y: String, b: Block, ph: String)
    requires b.start <= b.innerStart <= b.innerEnd <= b.end <= |y|
    ensures var B := ShiftBlock(b, |x|);
      && (x + y)[..B.start] + ph + (x + y)[B.end..] == (x + y[..b.start] + ph) + y[b.end..]
      && (x + y)[B.innerStart..B.innerEnd] == y[b.innerStart..b.innerEnd]
  {
    var B := ShiftBlock(b, |x|);
    assert (x + y)[..B.start] == x + y[..b.start];
    assert (x + y)[B.end..] == y[b.end..];
  }

  lemma ExtractLoopStep(s: String, b: Block, raws: seq<String>, i: nat)
    requires FindRaw(s) == Some(b)
    ensures ExtractLoop(s, raws, i)
         == ExtractLoop(s[..b.start] + Placeholder(i) + s[b.end..], raws + [s[b.innerStart..b.innerEnd]], i + 1)
  {
  }

  lemma ReferenceStep(y: String, b: Block, i: nat)
    requires FindRaw(y) == Some(b)
    ensures Shielded(y, i) == y[..b.start] + Placeholder(i) + Shielded(y[b.end..], i + 1)
    ensures Inners(y) == [y[b.innerStart..b.innerEnd]] + Inners(y[b.end..])
    ensures Stripped(y) == y[..b.start] + y[b.innerStart..b.innerEnd] + Stripped(y[b.end..])
  {
  }

  lemma ReferenceDone(y: String, i: nat)
    requires FindRaw(y).None?
    ensures Shielded(y, i) == y && Inners(y) == [] && Stripped(y) == y
  {
  }

  /** Rescanning from the start after each replacement finds exactly the
      blocks of the left-to-right reading, in order. */
  lemma {:induction false} ExtractLoopShielded(x: String, y: String, raws: seq<String>, i: nat)
    requires NoMatchBetween(x + y, 0, |x|)
    ensures ExtractLoop(x + y, raws, i) == (x + Shielded(y, i), raws + Inners(y))
    decreases |y|
  {
    FindRawAfter(x, y);
    match FindRaw(y)
    case None =>
      ReferenceDone(y, i);
      assert ExtractLoop(x + y, raws, i) == (x + y, raws);
      assert raws + Inners(y) == raws;
    case Some(b) =>
      var x' := x + y[..b.start] + Placeholder(i);
      var inner := y[b.innerStart..b.innerEnd];
      ExtractHit(x, y, b, raws, i);
      ExtractLoopShielded(x', y[b.end..], raws + [inner], i + 1);
      assert raws + [inner] + Inners(y[b.end..]) == raws + Inners(y);
  }

  /** One step of ExtractLoopShielded: the leftmost block of y, seen inside
      x + y, is replaced and the scan goes on with the text after it. */
  lemma ExtractHit(x: String, y: String, b: Block, raws: seq<String>, i: nat)
    requires NoMatchBetween(x + y, 0, |x|)
    requires FindRaw(y) == Some(b)
    ensures var x' := x + y[..b.start] + Placeholder(i);
      var inner := y[b.innerStart..b.innerEnd];
      && |y[b.end..]| < |y|
      && NoMatchBetween(x' + y[b.end..], 0, |x'|)
      && ExtractLoop(x + y, raws, i) == ExtractLoop(x' + y[b.end..], raws + [inner], i + 1)
      && x + Shielded(y, i) == x' + Shielded(y[b.end..], i + 1)
      && Inners(y) == [inner] + Inners(y[b.end..])
  {
    var B := ShiftBlock(b, |x|);
    var ph := Placeholder(i);
    var x' := x + y[..b.start] + ph;
    var inner := y[b.innerStart..b.innerEnd];
    FindRawAfter(x, y);
    SplitAtShiftedBlock(x, y, b, ph);
    ReplaceKeepsNoMatchBefore(x + y, B, ph);
    ExtractLoopStep(x + y, B, raws, i);
    ReferenceStep(y, b, i);
    ConcatAssoc(x, y[..b.start], ph, Shielded(y[b.end..], i + 1));
  }

  lemma ConcatAssoc(a: String, b: String, c: String, d: String)
    ensures a + (b + c + d) == a + b + c + d
  {
  }

  /** _extractRaws replaces the i-th block, left to right, by `###RAW<i>###`
      and records its inner text as raws[i]. */
  lemma ExtractIsShielded(t: String)
    ensures ExtractLoop(t, [], 0) == (Shielded(t, 0), Inners(t))
  {
    EmptyPrefix(t, Shielded(t, 0), Inners(t));
    ExtractLoopShielded([], t, [], 0);
  }

  lemma EmptyPrefix(t: String, shielded: String, inners: seq<String>)
    ensures [] + t == t && [] + shielded == shielded && [] + inners == inners
    ensures NoMatchBetween(t, 0, 0)
  {
  }

  /** No raw block is left in the text _extractRaws returns. */
  lemma {:induction false} ExtractLeavesNoBlock(str: String, raws: seq<String>, i: nat)
    ensures FindRaw(ExtractLoop(str, raws, i).0).None?
    decreases Angles(str)
  {
    match FindRaw(str)
    case None =>
    case Some(b) =>
      ReplaceLowersAngles(str, b, i);
      ExtractLeavesNoBlock(str[..b.start] + Placeholder(i) + str[b.end..], raws + [str[b.innerStart..b.innerEnd]], i + 1);
  }

  /** _extractRaws: cut every raw block out, leaving numbered placeholders. */
  method ExtractRaws(text: String) returns (str: String, raws: seq<String>)
    ensures (str, raws) == ExtractLoop(text, [], 0)
    ensures str == Shielded(text, 0) && raws == Inners(text)
    ensures FindRaw(str).None?
  {
    raws := [];
    var i := 0;
    str := text;
    var raw := FindRaw(str);
    while raw.Some?
      invariant raw == FindRaw(str)
      invariant ExtractLoop(str, raws, i) == ExtractLoop(text, [], 0)
      decreases Angles(str)
    {
      var b := raw.value;
      ReplaceLowersAngles(str, b, i);
      raws := raws + [str[b.innerStart..b.innerEnd]];
      str := str[..b.start] + Placeholder(i) + str[b.end..];
      i := i + 1;
      raw := FindRaw(str);
    }
    ExtractIsShielded(text);
    ExtractLeavesNoBlock(text, [], 0);
  }
}
