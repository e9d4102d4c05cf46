/** The palette of m62/pal.cpp: colours, controls, and the adjusted colours cached from them for every group. */
module PaletteCache {
  import opened BitLists
  import opened Storage

  // ------------------------------------------------------------ colours

  /** An rgb_t, by its four fields. */
  datatype Color = Argb(a: Byte, r: Byte, g: Byte, b: Byte)

  const BLACK: Color := Argb(255, 0, 0, 0)
  const WHITE: Color := Argb(255, 255, 255, 255)

  /** The conversion of a float to INT32 drops the fraction. */
  function Truncated(x: real): int {
    if x >= 0.0 then x.Floor else -((-x).Floor)
  }

  function RgbClamp(value: int): Byte {
    if value < 0 then 0 else if value > 255 then 255 else value
  }

  function AdjustLevel(level: Byte, brightness: real, contrast: real): Byte {
    RgbClamp(Truncated(level as real * contrast + brightness))
  }

  function AdjustEntry(entry: Color, brightness: real, contrast: real, gammaMap: seq<Byte>): Color
    requires |gammaMap| == 256
  {
    Argb(entry.a, AdjustLevel(gammaMap[entry.r], brightness, contrast),
         AdjustLevel(gammaMap[entry.g], brightness, contrast),
         AdjustLevel(gammaMap[entry.b], brightness, contrast))
  }

  function ToRgb15(c: Color): nat {
    c.r / 8 * 1024 + c.g / 8 * 32 + c.b / 8
  }

  /** Two colours have the same 15-bit form if and only if they agree in the upper five bits of every component. */
  lemma SameRgb15(c: Color, d: Color)
    ensures ToRgb15(c) == ToRgb15(d) <==> c.r / 8 == d.r / 8 && c.g / 8 == d.g / 8 && c.b / 8 == d.b / 8
    ensures ToRgb15(c) < 0x8000
  {
    ThreeFields(c.r / 8, c.g / 8, c.b / 8, d.r / 8, d.g / 8, d.b / 8);
  }

  lemma ThreeFields(r: nat, g: nat, b: nat, r': nat, g': nat, b': nat)
    requires r < 32 && g < 32 && b < 32 && r' < 32 && g' < 32 && b' < 32
    ensures r * 1024 + g * 32 + b == r' * 1024 + g' * 32 + b' <==> r == r' && g == g' && b == b'
    ensures r * 1024 + g * 32 + b < 0x8000
  {
  }

  /** Where the fields are: red, green and blue from the top, five bits each. */
  lemma FieldsOfRgb15(c: Color)
    ensures ToRgb15(c) / 1024 == c.r / 8 && ToRgb15(c) / 32 % 32 == c.g / 8 && ToRgb15(c) % 32 == c.b / 8
  {
    FieldsApart(c.r / 8, c.g / 8, c.b / 8);
  }

  lemma EndColors()
    ensures ToRgb15(Argb(255, 0, 0, 0)) == 0 && ToRgb15(Argb(255, 255, 255, 255)) == 0x7FFF
  {
    var black, white := Argb(255, 0, 0, 0), Argb(255, 255, 255, 255);
    assert black.r / 8 == black.g / 8 == black.b / 8 == 0;
    assert white.r / 8 == white.g / 8 == white.b / 8 == 31;
  }

  lemma FieldsApart(r: nat, g: nat, b: nat)
    requires g < 32 && b < 32
    ensures var x := r * 1024 + g * 32 + b; x / 1024 == r && x / 32 % 32 == g && x % 32 == b
  {
    var x := r * 1024 + g * 32 + b;
    assert x / 32 == r * 32 + g;
  }

  /** `v` is the whole part of level * factor + shift, kept within a byte. */
  predicate LevelIs(v: Byte, level: Byte, factor: real, shift: real) {
    var x := level as real * factor + shift;
    if x < 1.0 then v == 0 else if x >= 255.0 then v == 255 else v as real <= x < v as real + 1.0
  }

  lemma AdjustedLevel(level: Byte, brightness: real, contrast: real)
    ensures LevelIs(AdjustLevel(level, brightness, contrast), level, contrast, brightness)
  {
    WholePart(level as real * contrast + brightness);
  }

  /** The same for the three levels of a colour, each through the gamma map; alpha stays. */
  predicate EntryIs(c: Color, entry: Color, factor: real, shift: real, gammaMap: seq<Byte>)
    requires |gammaMap| == 256
  {
    && c.a == entry.a && LevelIs(c.r, gammaMap[entry.r], factor, shift)
    && LevelIs(c.g, gammaMap[entry.g], factor, shift) && LevelIs(c.b, gammaMap[entry.b], factor, shift)
  }

  lemma AdjustedEntry(entry: Color, brightness: real, contrast: real, gammaMap: seq<Byte>)
    requires |gammaMap| == 256
    ensures EntryIs(AdjustEntry(entry, brightness, contrast, gammaMap), entry, contrast, brightness, gammaMap)
  {
    hide AdjustLevel, LevelIs;
    AdjustedLevel(gammaMap[entry.r], brightness, contrast);
    AdjustedLevel(gammaMap[entry.g], brightness, contrast);
    AdjustedLevel(gammaMap[entry.b], brightness, contrast);
  }

  lemma WholePart(x: real)
    ensures var v := RgbClamp(Truncated(x));
            if x < 1.0 then v == 0 else if x >= 255.0 then v == 255 else v as real <= x < v as real + 1.0
  {
  }

  /** With the controls at their initial values the adjustment changes nothing. */
  lemma NeutralControls(c: Color, gammaMap: seq<Byte>)
    requires |gammaMap| == 256 && forall k :: 0 <= k < 256 ==> gammaMap[k] == k
    ensures AdjustEntry(c, 0.0, 1.0, gammaMap) == c
  {
  }

  /** More contrast or more brightness never makes a level darker. */
  lemma AdjustMonotone(level: Byte, level': Byte, brightness: real, brightness': real, contrast: real, contrast': real)
    requires level <= level' && brightness <= brightness' && 0.0 <= contrast <= contrast'
    ensures AdjustLevel(level, brightness, contrast) <= AdjustLevel(level', brightness', contrast')
  {
    hide Truncated, RgbClamp;
    var x, x' := level as real * contrast, level' as real * contrast';
    assert x <= x' by { Scaled(level as real, level' as real, contrast, contrast'); }
    ClampMonotone(x + brightness, x' + brightness');
  }

  lemma ClampMonotone(x: real, y: real)
    requires x <= y
    ensures RgbClamp(Truncated(x)) <= RgbClamp(Truncated(y))
  {
  }

  lemma Scaled(a: real, b: real, c: real, d: real)
    requires 0.0 <= a <= b && 0.0 <= c <= d
    ensures a * c <= b * d
  {
    assert a * c <= b * c;
    assert b * c <= b * d;
  }

  // ------------------------------------------------------------ dirty state

  type DirtyWord = w: Bits | |w| == 32 witness Zeros(32)

  /** A bitmap of changed entries with the range they lie in. */
  datatype DirtyState = DirtyState(dirty: seq<DirtyWord>, mindirty: nat, maxdirty: nat)

  predicate IsDirty(d: DirtyState, f: nat) {
    f / 32 < |d.dirty| && d.dirty[f / 32][f % 32]
  }

  function Mark(d: DirtyState, f: nat): (m: DirtyState)
    requires f / 32 < |d.dirty|
    ensures |m.dirty| == |d.dirty|
  {
    var word: DirtyWord := Or(d.dirty[f / 32], Word(32, {f % 32}));
    DirtyState(d.dirty[f / 32 := word], if d.mindirty <= f then d.mindirty else f,
               if d.maxdirty >= f then d.maxdirty else f)
  }

  lemma MarkBit(d: DirtyState, f: nat, k: nat)
    requires f / 32 < |d.dirty|
    ensures IsDirty(Mark(d, f), k) <==> IsDirty(d, k) || k == f
  {
  }

  /** Bit by bit: the mark of entry `f` is bit `f % 32` of word `f / 32`; the range is widened to it if need be. */
  lemma MarkIs(d: DirtyState, f: nat, w: nat, k: nat)
    requires f / 32 < |d.dirty| && w < |d.dirty| && k < 32
    ensures Mark(d, f).dirty[w][k] <==> d.dirty[w][k] || f == 32 * w + k
    ensures Mark(d, f).mindirty == (if f < d.mindirty then f else d.mindirty)
    ensures Mark(d, f).maxdirty == (if f > d.maxdirty then f else d.maxdirty)
  {
    assert f == 32 * w + k <==> f / 32 == w && f % 32 == k;
  }

  predicate Changed(x: seq<Color>, y: seq<Color>, f: nat) {
    f < |x| && f < |y| && x[f] != y[f]
  }

  /** `after` is `before` with exactly the entries marked in which `x` and `y` differ, and the range extended to them
      and no further. */
  ghost predicate MarksChanges(before: DirtyState, after: DirtyState, x: seq<Color>, y: seq<Color>) {
    && |x| == |y| && |after.dirty| == |before.dirty|
    && (forall f: nat :: IsDirty(after, f) <==> IsDirty(before, f) || Changed(x, y, f))
    && (forall f: nat :: Changed(x, y, f) ==> after.mindirty <= f <= after.maxdirty)
    && after.mindirty <= before.mindirty && before.maxdirty <= after.maxdirty
    && (after.mindirty == before.mindirty || Changed(x, y, after.mindirty))
    && (after.maxdirty == before.maxdirty || Changed(x, y, after.maxdirty))
  }

  lemma MarkOneMore(before: DirtyState, after: DirtyState, x: seq<Color>, y: seq<Color>, f: nat, c: Color)
    requires MarksChanges(before, after, x, y) && f < |x| && y[f] == x[f] && f / 32 < |after.dirty|
    ensures MarksChanges(before, if c == y[f] then after else Mark(after, f), x, y[f := c])
  {
    if c == y[f] {
      assert y[f := c] == y;
    } else {
      var y', after' := y[f := c], Mark(after, f);
      forall k: nat ensures IsDirty(after', k) <==> IsDirty(before, k) || Changed(x, y', k) { MarkBit(after, f, k); }
      assert Changed(x, y', f) && forall k: nat :: k != f ==> (Changed(x, y', k) <==> Changed(x, y, k));
    }
  }

  predicate RoomFor(lives: seq<DirtyState>, total: nat) {
    forall k :: 0 <= k < |lives| ==> total <= 32 * |lives[k].dirty|
  }

  /** Every client marked. */
  function MarkEach(lives: seq<DirtyState>, f: nat, total: nat): (marked: seq<DirtyState>)
    requires RoomFor(lives, total) && f < total
    ensures RoomFor(marked, total)
  {
    seq(|lives|, k requires 0 <= k < |lives| => Mark(lives[k], f))
  }

  /** Every client has marked the changes from `x` to `y`. */
  ghost predicate AllMarkChanges(before: seq<DirtyState>, after: seq<DirtyState>, x: seq<Color>, y: seq<Color>) {
    |before| == |after| && forall k :: 0 <= k < |before| ==> MarksChanges(before[k], after[k], x, y)
  }

  lemma AllMarkOneMore(before: seq<DirtyState>, after: seq<DirtyState>, x: seq<Color>, y: seq<Color>, f: nat, c: Color,
                       total: nat)
    requires AllMarkChanges(before, after, x, y) && RoomFor(after, total) && f < total <= |x| == |y| && y[f] == x[f]
    ensures AllMarkChanges(before, if c == y[f] then after else MarkEach(after, f, total), x, y[f := c])
  {
    hide MarksChanges, Mark;
    forall k | 0 <= k < |before|
      ensures MarksChanges(before[k], (if c == y[f] then after else MarkEach(after, f, total))[k], x, y[f := c])
    {
      assert |after[k].dirty| * 32 >= total;
      MarkOneMore(before[k], after[k], x, y, f, c);
    }
  }

  lemma NothingMarked(lives: seq<DirtyState>, x: seq<Color>)
    ensures AllMarkChanges(lives, lives, x, x)
  {
  }

  /** Entry `f` differs between two tables that follow each other. */
  ghost predicate EverChanged(tables: seq<seq<Color>>, f: nat) {
    exists k :: 0 <= k < |tables| - 1 && Changed(tables[k], tables[k + 1], f)
  }

  /** `after` is `before` with exactly the entries marked that ever changed, and the range extended to them and no
      further. */
  ghost predicate MarksRun(before: DirtyState, after: DirtyState, tables: seq<seq<Color>>) {
    && |after.dirty| == |before.dirty|
    && (forall f: nat :: IsDirty(after, f) <==> IsDirty(before, f) || EverChanged(tables, f))
    && (forall f: nat :: EverChanged(tables, f) ==> after.mindirty <= f <= after.maxdirty)
    && after.mindirty <= before.mindirty && before.maxdirty <= after.maxdirty
    && (after.mindirty == before.mindirty || EverChanged(tables, after.mindirty))
    && (after.maxdirty == before.maxdirty || EverChanged(tables, after.maxdirty))
  }

  ghost predicate AllMarkRun(before: seq<DirtyState>, after: seq<DirtyState>, tables: seq<seq<Color>>) {
    |before| == |after| && forall k :: 0 <= k < |before| ==> MarksRun(before[k], after[k], tables)
  }

  lemma OneMoreTable(tables: seq<seq<Color>>, next: seq<Color>, f: nat)
    requires tables != []
    ensures EverChanged(tables + [next], f) <==> EverChanged(tables, f) || Changed(tables[|tables| - 1], next, f)
  {
    var n, more := |tables| - 1, tables + [next];
    assert forall k :: 0 <= k <= n ==> more[k] == tables[k];
    assert more[n + 1] == next;
    if Changed(tables[n], next, f) {
      assert Changed(more[n], more[n + 1], f);
    }
    if k :| 0 <= k < n && Changed(tables[k], tables[k + 1], f) {
      assert Changed(more[k], more[k + 1], f);
    }
  }

  lemma MarkNextTable(before: DirtyState, mid: DirtyState, after: DirtyState, tables: seq<seq<Color>>, next: seq<Color>)
    requires tables != [] && MarksRun(before, mid, tables) && MarksChanges(mid, after, tables[|tables| - 1], next)
    ensures MarksRun(before, after, tables + [next])
  {
    hide EverChanged, Changed, IsDirty;
    forall f: nat
      ensures EverChanged(tables + [next], f) <==> EverChanged(tables, f) || Changed(tables[|tables| - 1], next, f)
    {
      OneMoreTable(tables, next, f);
    }
  }

  lemma AllMarkNextTable(before: seq<DirtyState>, mid: seq<DirtyState>, after: seq<DirtyState>, tables: seq<seq<Color>>,
                         next: seq<Color>)
    requires tables != [] && AllMarkRun(before, mid, tables) && AllMarkChanges(mid, after, tables[|tables| - 1], next)
    ensures AllMarkRun(before, after, tables + [next])
  {
    hide MarksRun, MarksChanges;
    forall k | 0 <= k < |before| ensures MarksRun(before[k], after[k], tables + [next]) {
      MarkNextTable(before[k], mid[k], after[k], tables, next);
    }
  }

  lemma NoRunYet(lives: seq<DirtyState>, x: seq<Color>)
    ensures AllMarkRun(lives, lives, [x])
  {
  }

  // ------------------------------------------------------------ the palette

  class Client {
    var live: DirtyState

    constructor (live: DirtyState)
      ensures this.live == live
    {
      this.live := live;
    }
  }

  ghost function LivesOf(clients: seq<Client>): seq<DirtyState>
    reads clients
  {
    seq(|clients|, k requires 0 <= k < |clients| reads clients => clients[k].live)
  }

  /** Where the adjusted colour of an entry in a group is kept. */
  function FinalIndex(group: nat, numcolors: nat, index: nat): nat {
    group * numcolors + index
  }

  function Size(numcolors: nat, numgroups: nat): nat {
    numcolors * numgroups
  }

  lemma IndexInside(group: nat, numgroups: nat, numcolors: nat, index: nat)
    requires group < numgroups && index < numcolors
    ensures FinalIndex(group, numcolors, index) < Size(numcolors, numgroups)
  {
    assert (group + 1) * numcolors <= numgroups * numcolors;
  }

  lemma Located(f: nat, numcolors: nat, numgroups: nat)
    requires f < Size(numcolors, numgroups)
    ensures numcolors > 0 && f / numcolors < numgroups
    ensures FinalIndex(f / numcolors, numcolors, f % numcolors) == f
  {
    PositiveFactor(numcolors, numgroups);
    QuotientBelow(f, numcolors, numgroups);
  }

  lemma PositiveFactor(a: nat, b: nat)
    requires a * b > 0
    ensures a > 0
  {
  }

  lemma QuotientBelow(f: nat, a: nat, b: nat)
    requires a > 0 && f < a * b
    ensures f / a < b && f / a * a + f % a == f
  {
    if f / a >= b {
      Grow(b, f / a, a);
    }
  }

  lemma Grow(a: nat, b: nat, c: nat)
    requires a <= b
    ensures a * c <= b * c
  {
  }

  lemma IndexApart(g: nat, i: nat, g': nat, i': nat, numcolors: nat)
    requires i < numcolors && i' < numcolors && (g, i) != (g', i')
    ensures FinalIndex(g, numcolors, i) != FinalIndex(g', numcolors, i')
    ensures g < g' ==> FinalIndex(g, numcolors, i) < FinalIndex(g', numcolors, i')
  {
    if g < g' { assert (g + 1) * numcolors <= g' * numcolors; }
    if g' < g { assert (g' + 1) * numcolors <= g * numcolors; }
  }

  class Palette {
    const numcolors: nat
    const numgroups: nat
    const brightness: real
    var contrast: real
    const gamma: real
    const gammaMap: seq<Byte>
    const entryColor: array<Color>
    const entryContrast: seq<real>
    const adjustedColor: array<Color>
    const adjustedRgb15: array<nat>
    const groupBright: seq<real>
    const groupContrast: seq<real>
    /** client_list, in order. */
    var clients: seq<Client>

    ghost const total: nat := Size(numcolors, numgroups)

    ghost predicate Shaped() {
      && |gammaMap| == 256 && entryColor.Length == |entryContrast| == numcolors
      && |groupBright| == |groupContrast| == numgroups
      && adjustedColor.Length == adjustedRgb15.Length == total + 2 && entryColor != adjustedColor
    }

    /** No client is listed twice, and each has room for every colour. */
    ghost predicate ClientsFit()
      reads `clients, clients
    {
      && (forall j, k :: 0 <= j < k < |clients| ==> clients[j] != clients[k])
      && RoomFor(Lives(), total)
    }

    /** The dirty states of the clients. */
    ghost function Lives(): seq<DirtyState>
      reads `clients, clients
    {
      LivesOf(clients)
    }

    /** What the adjusted colour of an entry in a group should be now. */
    ghost function Target(g: nat, i: nat): Color
      requires Shaped() && g < numgroups && i < numcolors
      reads `contrast, entryColor
    {
      Adjusted(entryColor[i], contrast, g, i)
    }

    ghost function Adjusted(entry: Color, contrast: real, g: nat, i: nat): Color
      requires Shaped() && g < numgroups && i < numcolors
    {
      AdjustEntry(entry, groupBright[g] + brightness, groupContrast[g] * entryContrast[i] * contrast, gammaMap)
    }

    ghost predicate Right(g: nat, i: nat)
      requires Shaped() && g < numgroups && i < numcolors
      reads `contrast, entryColor, adjustedColor
    {
      IndexInside(g, numgroups, numcolors, i);
      adjustedColor[FinalIndex(g, numcolors, i)] == Target(g, i)
    }

    /** The 15-bit forms follow the adjusted colours, and black and white end the table. */
    ghost predicate Paired()
      requires Shaped()
      reads adjustedColor, adjustedRgb15
    {
      && (forall f :: 0 <= f < total + 2 ==> adjustedRgb15[f] == ToRgb15(adjustedColor[f]))
      && adjustedColor[total] == BLACK && adjustedColor[total + 1] == WHITE
    }

    /** The cache holds what a fresh computation from the entries and controls would give. */
    ghost predicate Cached()
      requires Shaped()
      reads `contrast, entryColor, adjustedColor, adjustedRgb15
    {
      && Paired()
      && forall g: nat, i: nat :: g < numgroups && i < numcolors ==> Right(g, i)
    }

    lemma Sizes()
      requires Shaped()
      ensures entryColor.Length == numcolors
    {
    }

    /** The whole table that entries and contrast give. */
    ghost function TableFor(entries: seq<Color>, contrast: real): (t: seq<Color>)
      requires Shaped() && |entries| == numcolors
      ensures |t| == total + 2
    {
      seq(total + 2, f requires 0 <= f < total + 2 => TableAt(entries, contrast, f))
    }

    ghost function TableAt(entries: seq<Color>, contrast: real, f: nat): Color
      requires Shaped() && |entries| == numcolors && f < total + 2
    {
      if f == total then BLACK
      else if f > total then WHITE
      else
        Located(f, numcolors, numgroups);
        Adjusted(entries[f % numcolors], contrast, f / numcolors, f % numcolors)
    }

    lemma CachedAt(f: nat)
      requires Shaped() && Cached() && f < total + 2
      ensures adjustedColor[f] == TableAt(entryColor[..], contrast, f)
    {
      hide AdjustEntry, ToRgb15, Size, FinalIndex;
      if f < total {
        Located(f, numcolors, numgroups);
        var g, i: nat := f / numcolors, f % numcolors;
        assert Right(g, i);
      }
    }

    /** What a right cache holds for an entry in a group: the entry scaled and shifted by all the controls. */
    lemma CachedLevels(g: nat, i: nat, factor: real, shift: real)
      requires Shaped() && Cached() && g < numgroups && i < numcolors
      requires factor == groupContrast[g] * entryContrast[i] * contrast && shift == groupBright[g] + brightness
      ensures g * numcolors + i < total
      ensures var c, entry := adjustedColor[g * numcolors + i], entryColor[i];
              && EntryIs(c, entry, factor, shift, gammaMap)
              && adjustedRgb15[g * numcolors + i] == c.r / 8 * 1024 + c.g / 8 * 32 + c.b / 8
    {
      hide AdjustEntry, EntryIs, ToRgb15, Size;
      IndexInside(g, numgroups, numcolors, i);
      RgbFollows(g * numcolors + i);
      TargetIs(g, i, factor, shift);
      assert Right(g, i);
      hide Adjusted, Target;
      assert adjustedColor[g * numcolors + i] == Target(g, i);
    }

    lemma TargetIs(g: nat, i: nat, factor: real, shift: real)
      requires Shaped() && g < numgroups && i < numcolors
      requires factor == groupContrast[g] * entryContrast[i] * contrast && shift == groupBright[g] + brightness
      ensures EntryIs(Target(g, i), entryColor[i], factor, shift, gammaMap)
    {
      hide EntryIs, AdjustEntry;
      AdjustedEntry(entryColor[i], shift, factor, gammaMap);
    }

    lemma RgbFollows(f: nat)
      requires Shaped() && Paired() && f < total
      ensures var c := adjustedColor[f]; adjustedRgb15[f] == c.r / 8 * 1024 + c.g / 8 * 32 + c.b / 8
    {
    }

    lemma CacheIsTable()
      requires Shaped() && Cached()
      ensures adjustedColor[..] == TableFor(entryColor[..], contrast)
    {
      hide Cached, TableAt;
      forall f | 0 <= f < total + 2 ensures adjustedColor[f] == TableAt(entryColor[..], contrast, f) {
        CachedAt(f);
      }
    }

    /** palette_alloc, when there is memory. */
    constructor (numcolors: nat, numgroups: nat)
      ensures this.numcolors == numcolors && this.numgroups == numgroups && contrast == 1.0 && clients == []
      ensures Shaped() && ClientsFit() && Cached()
      ensures forall i :: 0 <= i < numcolors ==> entryColor[i] == BLACK
      ensures forall f :: 0 <= f < total ==> adjustedColor[f] == BLACK
      ensures adjustedColor[total] == Argb(255, 0, 0, 0) && adjustedColor[total + 1] == Argb(255, 255, 255, 255)
      ensures adjustedRgb15[total] == 0 && adjustedRgb15[total + 1] == 0x7FFF
      ensures fresh(entryColor) && fresh(adjustedColor) && fresh(adjustedRgb15)
    {
      hide Size, ToRgb15, Adjusted, Target, Right, Paired, Cached, Shaped, ClientsFit, Lives, LivesOf;
      this.numcolors, this.numgroups := numcolors, numgroups;
      brightness, contrast, gamma := 0.0, 1.0, 1.0;
      gammaMap := seq(256, k requires 0 <= k < 256 => k);
      clients := [];
      entryColor := new Color[numcolors](_ => BLACK);
      entryContrast := seq(numcolors, _ => 1.0);
      groupBright := seq(numgroups, _ => 0.0);
      groupContrast := seq(numgroups, _ => 1.0);
      var size := Size(numcolors, numgroups);
      adjustedColor := new Color[size + 2](_ => BLACK);
      adjustedRgb15 := new nat[size + 2](_ => ToRgb15(BLACK));
      new;
      adjustedColor[size + 1] := WHITE;
      adjustedRgb15[size + 1] := ToRgb15(WHITE);
      NewShape();
      EndColors();
      AllBlack();
    }

    lemma NewShape()
      requires |gammaMap| == 256 && entryColor.Length == |entryContrast| == numcolors
      requires |groupBright| == |groupContrast| == numgroups
      requires adjustedColor.Length == adjustedRgb15.Length == total + 2 && entryColor != adjustedColor && clients == []
      ensures Shaped() && ClientsFit()
    {
    }

    lemma AllBlack()
      requires Shaped() && (forall k :: 0 <= k < 256 ==> gammaMap[k] == k) && brightness == 0.0 && contrast == 1.0
      requires forall i :: 0 <= i < numcolors ==> entryColor[i] == BLACK && entryContrast[i] == 1.0
      requires forall g :: 0 <= g < numgroups ==> groupBright[g] == 0.0 && groupContrast[g] == 1.0
      requires forall f :: 0 <= f <= total ==> adjustedColor[f] == BLACK && adjustedRgb15[f] == ToRgb15(BLACK)
      requires adjustedColor[total + 1] == WHITE && adjustedRgb15[total + 1] == ToRgb15(WHITE)
      ensures Cached()
    {
      hide AdjustEntry;
      forall g: nat, i: nat | g < numgroups && i < numcolors ensures Right(g, i) {
        IndexInside(g, numgroups, numcolors, i);
        NeutralControls(BLACK, gammaMap);
      }
    }

    /** The client loop of update_adjusted_color. */
    method MarkClients(finalindex: nat)
      requires ClientsFit() && finalindex < total
      modifies clients
      ensures ClientsFit() && Lives() == MarkEach(old(Lives()), finalindex, total)
    {
      hide Mark;
      var k := 0;
      while k < |clients|
        invariant 0 <= k <= |clients|
        invariant forall j :: 0 <= j < k ==> clients[j].live == MarkEach(old(Lives()), finalindex, total)[j]
        invariant forall j :: k <= j < |clients| ==> clients[j].live == old(Lives())[j]
      {
        assert clients[k].live == old(Lives())[k];
        clients[k].live := Mark(clients[k].live, finalindex);
        k := k + 1;
      }
      assert Lives() == MarkEach(old(Lives()), finalindex, total);
    }

    /** update_adjusted_color. */
    method UpdateAdjusted(group: nat, index: nat)
      requires Shaped() && ClientsFit() && Paired() && group < numgroups && index < numcolors
      modifies adjustedColor, adjustedRgb15, clients
      ensures Paired() && ClientsFit()
      ensures FinalIndex(group, numcolors, index) < total
      ensures adjustedColor[..] == old(adjustedColor[..])[FinalIndex(group, numcolors, index) := Target(group, index)]
      ensures Lives() == if Target(group, index) == old(adjustedColor[..])[FinalIndex(group, numcolors, index)]
                         then old(Lives())
                         else MarkEach(old(Lives()), FinalIndex(group, numcolors, index), total)
    {
      hide AdjustEntry, ToRgb15, MarkEach, ClientsFit, Lives;
      IndexInside(group, numgroups, numcolors, index);
      var finalindex: nat := group * numcolors + index;
      var adjusted := AdjustEntry(entryColor[index], groupBright[group] + brightness,
                                  groupContrast[group] * entryContrast[index] * contrast, gammaMap);
      if adjustedColor[finalindex] == adjusted {
        return;
      }
      adjustedColor[finalindex] := adjusted;
      adjustedRgb15[finalindex] := ToRgb15(adjusted);
      MarkClients(finalindex);
    }

    /** What the clients know about a change from `x`. */
    ghost predicate Tracked(before: seq<DirtyState>, x: seq<Color>)
      reads `clients, clients, adjustedColor
    {
      AllMarkChanges(before, Lives(), x, adjustedColor[..])
    }

    ghost predicate Untouched(x: seq<Color>, from: nat)
      reads adjustedColor
    {
      adjustedColor.Length == |x| && forall f :: from <= f < |x| ==> adjustedColor[f] == x[f]
    }

    /** One adjusted colour brought up to date: it is right then, the others stay as they are, the clients know. */
    method Refresh(g: nat, i: nat, ghost before: seq<DirtyState>, ghost x: seq<Color>)
      requires Shaped() && ClientsFit() && Paired() && g < numgroups && i < numcolors
      requires Tracked(before, x) && Untouched(x, FinalIndex(g, numcolors, i))
      modifies adjustedColor, adjustedRgb15, clients
      ensures Paired() && ClientsFit() && Tracked(before, x) && Right(g, i)
      ensures Untouched(x, FinalIndex(g, numcolors, i) + 1)
      ensures forall g': nat, i': nat :: g' < numgroups && i' < numcolors && old(Right(g', i')) ==> Right(g', i')
    {
      hide AdjustEntry, ToRgb15, MarkEach, AllMarkChanges, Lives, Target;
      ghost var f := FinalIndex(g, numcolors, i);
      IndexInside(g, numgroups, numcolors, i);
      AllMarkOneMore(before, Lives(), x, adjustedColor[..], f, Target(g, i), total);
      UpdateAdjusted(g, i);
      forall g': nat, i': nat | g' < numgroups && i' < numcolors && old(Right(g', i')) ensures Right(g', i') {
        IndexInside(g', numgroups, numcolors, i');
        if (g', i') != (g, i) {
          IndexApart(g, i, g', i', numcolors);
          assert adjustedColor[FinalIndex(g', numcolors, i')] == adjustedColor[..][FinalIndex(g', numcolors, i')];
        }
      }
    }

    twostate lemma OthersStayRight(index: nat)
      requires Shaped() && old(Cached()) && index < numcolors && contrast == old(contrast)
      requires adjustedColor[..] == old(adjustedColor[..])
      requires entryColor[..] == old(entryColor[..])[index := entryColor[index]]
      ensures forall g: nat, i: nat :: g < numgroups && i < numcolors && i != index ==> Right(g, i)
    {
      hide Adjusted, ToRgb15;
      forall g: nat, i: nat | g < numgroups && i < numcolors && i != index ensures Right(g, i) {
        IndexInside(g, numgroups, numcolors, i);
        var f := FinalIndex(g, numcolors, i);
        assert old(Right(g, i));
        assert entryColor[i] == entryColor[..][i] == old(entryColor[..])[i] == old(entryColor[i]);
        assert adjustedColor[f] == adjustedColor[..][f] == old(adjustedColor[..])[f] == old(adjustedColor[f]);
      }
    }

    /** palette_entry_set_color. */
    method SetColor(index: nat, rgb: Color)
      requires Shaped() && ClientsFit() && Cached()
      modifies entryColor, adjustedColor, adjustedRgb15, clients
      ensures ClientsFit() && Cached()
      ensures entryColor[..] == if index < numcolors then old(entryColor[..])[index := rgb] else old(entryColor[..])
      ensures Tracked(old(Lives()), old(adjustedColor[..]))
    {
      hide AdjustEntry, ToRgb15, AllMarkChanges, Lives, ClientsFit;
      ghost var before, x := Lives(), adjustedColor[..];
      NothingMarked(before, x);
      if index >= numcolors || entryColor[index] == rgb {
        return;
      }
      entryColor[index] := rgb;
      OthersStayRight(index);
      var groupnum: nat := 0;
      while groupnum < numgroups
        invariant groupnum <= numgroups
        invariant Paired() && ClientsFit() && Tracked(before, x) && Untouched(x, FinalIndex(groupnum, numcolors, index))
        invariant forall g: nat, i: nat :: g < numgroups && i < numcolors && (i != index || g < groupnum) ==>
                    Right(g, i)
        invariant entryColor[..] == old(entryColor[..])[index := rgb]
      {
        Refresh(groupnum, index, before, x);
        IndexApart(groupnum, index, groupnum + 1, index, numcolors);
        groupnum := groupnum + 1;
      }
    }

    /** palette_set_contrast. */
    method SetContrast(value: real)
      requires Shaped() && ClientsFit() && Cached()
      modifies `contrast, adjustedColor, adjustedRgb15, clients
      ensures ClientsFit() && Cached() && contrast == value
      ensures Tracked(old(Lives()), old(adjustedColor[..]))
    {
      hide AdjustEntry, ToRgb15, AllMarkChanges, Lives, ClientsFit;
      ghost var before, x := Lives(), adjustedColor[..];
      NothingMarked(before, x);
      if contrast == value {
        return;
      }
      contrast := value;
      var groupnum: nat := 0;
      while groupnum < numgroups
        invariant groupnum <= numgroups && contrast == value
        invariant Paired() && ClientsFit() && Tracked(before, x) && Untouched(x, FinalIndex(groupnum, numcolors, 0))
        invariant forall g: nat, i: nat :: g < groupnum && i < numcolors ==> Right(g, i)
      {
        var index: nat := 0;
        while index < numcolors
          invariant index <= numcolors && contrast == value
          invariant Paired() && ClientsFit() && Tracked(before, x)
          invariant Untouched(x, FinalIndex(groupnum, numcolors, index))
          invariant forall g: nat, i: nat ::
                      g < numgroups && i < numcolors && (g < groupnum || (g == groupnum && i < index)) ==> Right(g, i)
        {
          Refresh(groupnum, index, before, x);
          index := index + 1;
        }
        groupnum := groupnum + 1;
      }
    }
  }

  // ------------------------------------------------------------ any run

  datatype Op = SetColor(index: nat, rgb: Color) | SetContrast(value: real)

  /** The entries after a run: the last valid assignment to each. */
  function Entries(entries: seq<Color>, ops: seq<Op>): (after: seq<Color>)
    ensures |after| == |entries|
  {
    if ops == [] then entries
    else
      var before := Entries(entries, ops[..|ops| - 1]);
      match ops[|ops| - 1]
      case SetColor(index, rgb) => if index < |entries| then before[index := rgb] else before
      case SetContrast(_) => before
  }

  function Contrast(contrast: real, ops: seq<Op>): real {
    if ops == [] then contrast
    else match ops[|ops| - 1]
         case SetContrast(value) => value
         case SetColor(_, _) => Contrast(contrast, ops[..|ops| - 1])
  }

  /** The tables before, between and after the operations of a run. */
  ghost function Tables(p: Palette, entries: seq<Color>, contrast: real, ops: seq<Op>): (tables: seq<seq<Color>>)
    requires p.Shaped() && |entries| == p.numcolors
    ensures |tables| == |ops| + 1
  {
    if ops == [] then [p.TableFor(entries, contrast)]
    else Tables(p, entries, contrast, ops[..|ops| - 1]) + [p.TableFor(Entries(entries, ops), Contrast(contrast, ops))]
  }

  lemma LastTable(p: Palette, entries: seq<Color>, contrast: real, ops: seq<Op>)
    requires p.Shaped() && |entries| == p.numcolors
    ensures Contrast(contrast, []) == contrast && Entries(entries, []) == entries
    ensures Tables(p, entries, contrast, ops)[|ops|] == p.TableFor(Entries(entries, ops), Contrast(contrast, ops))
  {
  }

  method Do(p: Palette, op: Op)
    requires p.Shaped() && p.ClientsFit() && p.Cached()
    modifies p, p.entryColor, p.adjustedColor, p.adjustedRgb15, p.clients
    ensures p.ClientsFit() && p.Cached() && p.clients == old(p.clients)
    ensures p.entryColor[..] == Entries(old(p.entryColor[..]), [op]) && p.contrast == Contrast(old(p.contrast), [op])
    ensures AllMarkChanges(old(p.Lives()), p.Lives(), old(p.adjustedColor[..]), p.adjustedColor[..])
  {
    hide Palette.Cached, Palette.ClientsFit, Palette.Lives, AllMarkChanges;
    assert [op][..0] == [];
    match op
    case SetColor(index, rgb) => p.SetColor(index, rgb);
    case SetContrast(value) => p.SetContrast(value);
  }

  /** Any run of operations on a palette whose cache is right: the cache is what the resulting entries and contrast
      give, whatever the two early returns have skipped on the way, and each client has marked exactly the entries that
      ever changed, even if they have changed back since. */
  method Run(p: Palette, ops: seq<Op>)
    requires p.Shaped() && p.ClientsFit() && p.Cached()
    modifies p, p.entryColor, p.adjustedColor, p.adjustedRgb15, p.clients
    ensures p.ClientsFit() && p.Cached() && p.clients == old(p.clients)
    ensures p.entryColor[..] == Entries(old(p.entryColor[..]), ops) && p.contrast == Contrast(old(p.contrast), ops)
    ensures AllMarkRun(old(p.Lives()), p.Lives(), Tables(p, old(p.entryColor[..]), old(p.contrast), ops))
  {
    hide *;
    p.Sizes();
    RunStep(p, p.entryColor[..], p.contrast, ops, 0);
    p.CacheIsTable();
    NoRunYet(p.Lives(), p.adjustedColor[..]);
    ghost var entries, contrast, before := p.entryColor[..], p.contrast, p.Lives();
    var k := 0;
    while k < |ops|
      invariant 0 <= k <= |ops| && |entries| == p.numcolors
      invariant p.ClientsFit() && p.Cached() && p.clients == old(p.clients)
      invariant p.entryColor[..] == Entries(entries, ops[..k]) && p.contrast == Contrast(contrast, ops[..k])
      invariant AllMarkRun(before, p.Lives(), Tables(p, entries, contrast, ops[..k]))
    {
      RunStep(p, entries, contrast, ops, k);
      LastTable(p, entries, contrast, ops[..k]);
      p.CacheIsTable();
      ghost var mid := p.Lives();
      Do(p, ops[k]);
      p.CacheIsTable();
      AllMarkNextTable(before, mid, p.Lives(), Tables(p, entries, contrast, ops[..k]), p.adjustedColor[..]);
      k := k + 1;
    }
    assert ops[..|ops|] == ops;
  }

  lemma RunStep(p: Palette, entries: seq<Color>, contrast: real, ops: seq<Op>, k: nat)
    requires p.Shaped() && |entries| == p.numcolors && k <= |ops|
    ensures k == 0 ==> Entries(entries, ops[..k]) == entries && Contrast(contrast, ops[..k]) == contrast
    ensures k == 0 ==> Tables(p, entries, contrast, ops[..k]) == [p.TableFor(entries, contrast)]
    ensures k < |ops| ==>
              && Entries(entries, ops[..k + 1]) == Entries(Entries(entries, ops[..k]), [ops[k]])
              && Contrast(contrast, ops[..k + 1]) == Contrast(Contrast(contrast, ops[..k]), [ops[k]])
              && Tables(p, entries, contrast, ops[..k + 1]) == Tables(p, entries, contrast, ops[..k])
                 + [p.TableFor(Entries(entries, ops[..k + 1]), Contrast(contrast, ops[..k + 1]))]
  {
    hide Palette.TableFor;
    if k < |ops| {
      assert ops[..k + 1][..k] == ops[..k];
      assert [ops[k]][..0] == [];
    }
  }

  /** The same for a new palette with some clients. */
  method NewAndRun(numcolors: nat, numgroups: nat, clients: seq<Client>, ops: seq<Op>) returns (p: Palette)
    requires forall j, k :: 0 <= j < k < |clients| ==> clients[j] != clients[k]
    requires RoomFor(LivesOf(clients), Size(numcolors, numgroups))
    modifies clients
    ensures p.numcolors == numcolors && p.numgroups == numgroups && p.clients == clients
    ensures p.Shaped() && p.Cached()
    ensures p.entryColor[..] == Entries(seq(numcolors, _ => BLACK), ops) && p.contrast == Contrast(1.0, ops)
    ensures AllMarkRun(old(LivesOf(clients)), LivesOf(clients), Tables(p, seq(numcolors, _ => BLACK), 1.0, ops))
  {
    hide Palette.Shaped, Palette.Cached, AllMarkRun, Entries, Contrast, Tables, RoomFor, Size;
    p := new Palette(numcolors, numgroups);
    p.Sizes();
    assert p.entryColor[..] == seq(numcolors, _ => BLACK);
    p.clients := clients;
    Run(p, ops);
  }

  /** As long as the contrast is 1 the adjusted colours are the entries. */
  lemma WithoutContrastCopies(p: Palette, g: nat, i: nat)
    requires p.Shaped() && p.Cached() && g < p.numgroups && i < p.numcolors
    requires p.contrast == 1.0 && p.brightness == 0.0 && p.groupBright[g] == 0.0 && p.groupContrast[g] == 1.0
    requires p.entryContrast[i] == 1.0
    requires forall k :: 0 <= k < 256 ==> p.gammaMap[k] == k
    ensures FinalIndex(g, p.numcolors, i) < p.total && p.adjustedColor[FinalIndex(g, p.numcolors, i)] == p.entryColor[i]
  {
    IndexInside(g, p.numgroups, p.numcolors, i);
    assert p.Right(g, i);
    NeutralControls(p.entryColor[i], p.gammaMap);
  }
}
