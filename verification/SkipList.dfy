/**
 The indexable skip list.

 `nodes` lists the nodes in level-0 order, the head first, so a node's index is its 1-based rank. For every live level
 the invariant says of each node tall enough: its next pointer is the first later node tall enough, and its span is the
 distance to it, or the distance to the end of the list when there is none.
 */
module SkipList {

  import opened Options

  /** The levels of a node are indexed by an unsigned byte. */
  const MAX_LEVEL := 255

  // ---------------------------------------------------------------- keys

  datatype Key = Key(score: nat, val: string)

  predicate StringLess(a: string, b: string) {
    b != [] && (a == [] || a[0] < b[0] || (a[0] == b[0] && StringLess(a[1..], b[1..])))
  }

  predicate Less(a: Key, b: Key) {
    a.score < b.score || (a.score == b.score && StringLess(a.val, b.val))
  }

  lemma {:induction false} StringLessOrder(a: string, b: string, c: string)
    ensures !StringLess(b, a) && StringLess(b, c) ==> StringLess(a, c)
    ensures !(StringLess(a, b) && StringLess(b, a))
    ensures !StringLess(a, b) && !StringLess(b, a) ==> a == b
  {
    if a != [] && b != [] {
      StringLessOrder(a[1..], b[1..], if c == [] then [] else c[1..]);
      assert a == [a[0]] + a[1..] && b == [b[0]] + b[1..];
    }
  }

  /** `Less` is a strict total order. */
  lemma LessOrder(a: Key, b: Key, c: Key)
    ensures !Less(b, a) && Less(b, c) ==> Less(a, c)
    ensures !(Less(a, b) && Less(b, a))
    ensures !Less(a, b) && !Less(b, a) ==> a == b
  {
    StringLessOrder(a.val, b.val, c.val);
  }

  /** `a` and `b` agree below `i`; there `a` ends, or has the smaller character. */
  ghost predicate FirstLess(a: string, b: string, i: nat) {
    i <= |a| && i < |b| && a[..i] == b[..i] && (i == |a| || a[i] < b[i])
  }

  lemma {:induction false} StringLessMeans(a: string, b: string)
    ensures StringLess(a, b) <==> exists i: nat :: FirstLess(a, b, i)
  {
    if StringLess(a, b) {
      var i := WhereLess(a, b);
    }
    if i: nat :| FirstLess(a, b, i) {
      if i == 0 {
      } else {
        assert a[0] == a[..i][0] == b[..i][0] == b[0];
        assert a[1..][..i - 1] == a[..i][1..] == b[..i][1..] == b[1..][..i - 1];
        assert FirstLess(a[1..], b[1..], i - 1);
        StringLessMeans(a[1..], b[1..]);
      }
    }
  }

  lemma {:induction false} WhereLess(a: string, b: string) returns (i: nat)
    requires StringLess(a, b)
    ensures FirstLess(a, b, i)
  {
    if a == [] || a[0] < b[0] {
      i := 0;
    } else {
      i := WhereLess(a[1..], b[1..]);
      assert a[..i + 1] == [a[0]] + a[1..][..i] && b[..i + 1] == [b[0]] + b[1..][..i];
      i := i + 1;
    }
  }

  /** Smaller score, or the same score and a string that is smaller where the two first differ. */
  ghost predicate Smaller(a: Key, b: Key) {
    a.score < b.score || (a.score == b.score && exists i: nat :: FirstLess(a.val, b.val, i))
  }

  lemma LessMeans(a: Key, b: Key)
    ensures Less(a, b) <==>
      a.score < b.score || (a.score == b.score && exists i: nat :: FirstLess(a.val, b.val, i))
    ensures Less(a, b) <==> Smaller(a, b)
  {
    StringLessMeans(a.val, b.val);
  }

  // ---------------------------------------------------------------- one level, as a value

  datatype Level = Level(next: SkipListNode?, span: int)

  /** One level of the list: by position, the level's entry of the node, or `None` for nodes that are not so tall. */
  type Column = seq<Option<Level>>

  ghost predicate LinkOk(nodes: seq<SkipListNode>, col: Column, p: nat)
    requires p < |col| == |nodes| && col[p].Some?
  {
    var Level(next, span) := col[p].value;
    if next == null then
      p + span == |nodes| - 1 && forall q :: p < q < |col| ==> col[q].None?
    else
      && 1 <= span && p + span < |nodes| && nodes[p + span] == next && col[p + span].Some?
      && forall q :: p < q < p + span ==> col[q].None?
  }

  ghost predicate LevelOk(nodes: seq<SkipListNode>, col: Column) {
    |col| == |nodes|
    && forall p {:trigger LinkOk(nodes, col, p)} :: 0 <= p < |col| && col[p].Some? ==> LinkOk(nodes, col, p)
  }

  /** `pos` is the last node of this level at or before position `m`. */
  ghost predicate LastBefore(col: Column, pos: nat, m: nat) {
    pos <= m < |col| && col[pos].Some? && forall q :: pos < q <= m ==> col[q].None?
  }

  function InsertAt<T>(s: seq<T>, k: nat, x: T): (r: seq<T>)
    requires k <= |s|
    ensures |r| == |s| + 1
    ensures forall p :: 0 <= p < k ==> r[p] == s[p]
    ensures r[k] == x
    ensures forall p :: k < p < |r| ==> r[p] == s[p - 1]
  {
    s[..k] + [x] + s[k..]
  }

  function RemoveAt<T>(s: seq<T>, k: nat): (r: seq<T>)
    requires k < |s|
    ensures |r| == |s| - 1
    ensures forall p :: 0 <= p < k ==> r[p] == s[p]
    ensures forall p :: k <= p < |r| ==> r[p] == s[p + 1]
  {
    s[..k] + s[k + 1..]
  }

  /** `s'` is `s` with one more element, at position `k`. */
  ghost predicate Inserted<T>(s: seq<T>, s': seq<T>, k: nat) {
    && k <= |s| && |s'| == |s| + 1
    && (forall p :: 0 <= p < k ==> s'[p] == s[p])
    && (forall p :: k < p < |s'| ==> s'[p] == s[p - 1])
  }

  /** `col'` is `col` with an entry after position `m`, and possibly another value at `pos`. */
  ghost predicate ColumnInserted(col: Column, col': Column, m: nat, pos: nat) {
    && pos <= m < |col| && |col'| == |col| + 1 && col[pos].Some? && col'[pos].Some?
    && (forall q :: 0 <= q <= m && q != pos ==> col'[q] == col[q])
    && (forall q :: m + 1 < q < |col'| ==> col'[q] == col[q - 1])
  }

  /** Links that start before `pos` end at or before it. */
  lemma StaysBehind(nodes: seq<SkipListNode>, col: Column, m: nat, pos: nat, p: nat)
    requires LevelOk(nodes, col) && LastBefore(col, pos, m) && p < |col| && col[p].Some?
    ensures p < pos ==> col[p].value.next != null && p + col[p].value.span <= pos
    ensures p == pos && col[p].value.next != null ==> p + col[p].value.span > m
    ensures p <= m ==> p <= pos
    ensures LinkOk(nodes, col, p)
  {
    assert LinkOk(nodes, col, p);
  }

  /** A link that ends at or before position `m`, or starts after it, survives an insertion there. */
  lemma LinkSurvives(nodes: seq<SkipListNode>, col: Column, nodes': seq<SkipListNode>, col': Column, m: nat, pos: nat,
                     p: nat)
    requires |col| == |nodes| && Inserted(nodes, nodes', m + 1) && ColumnInserted(col, col', m, pos)
    requires p < |col| && p != pos && col[p].Some? && LinkOk(nodes, col, p)
    requires p > m || (col[p].value.next != null && p + col[p].value.span <= m)
    ensures var p' := if p > m then p + 1 else p; col'[p'].Some? && LinkOk(nodes', col', p')
  {
    var l := col[p].value;
    if p > m {
      assert col'[p + 1] == col[p];
      forall q | p + 1 < q < (if l.next == null then |col'| else p + 1 + l.span) ensures col'[q].None? {
        assert col[q - 1].None?;
      }
    }
  }

  /** The same for a removal at `m + 1`. */
  lemma LinkOutlives(nodes: seq<SkipListNode>, col: Column, nodes': seq<SkipListNode>, col': Column, m: nat, pos: nat,
                     p: nat)
    requires |col| == |nodes| && Inserted(nodes', nodes, m + 1) && ColumnInserted(col', col, m, pos)
    requires p < |col| && p != pos && p != m + 1 && col[p].Some? && LinkOk(nodes, col, p)
    requires p > m || (col[p].value.next != null && p + col[p].value.span <= m)
    ensures var p' := if p > m then p - 1 else p; col'[p'].Some? && LinkOk(nodes', col', p')
  {
    var l := col[p].value;
    if p > m {
      assert col'[p - 1] == col[p];
      if l.next != null { assert nodes[p + l.span] == nodes'[p - 1 + l.span]; }
      forall q | p - 1 < q < (if l.next == null then |col'| else p - 1 + l.span) ensures col'[q].None? {
        assert col[q + 1].None?;
      }
    }
  }

  /** The predecessor of a node that enters after position `m`, on a level that passes over it. */
  lemma WidenedLink(nodes: seq<SkipListNode>, col: Column, nodes': seq<SkipListNode>, col': Column, m: nat, pos: nat)
    requires |col| == |nodes| && Inserted(nodes, nodes', m + 1) && ColumnInserted(col, col', m, pos)
    requires LastBefore(col, pos, m) && LinkOk(nodes, col, pos) && col'[m + 1].None?
    requires col[pos].value.next != null ==> pos + col[pos].value.span > m
    requires col'[pos] == Some(Level(col[pos].value.next, col[pos].value.span + 1))
    ensures LinkOk(nodes', col', pos)
  {
    var l := col[pos].value;
    forall q | pos < q < (if l.next == null then |col'| else pos + l.span + 1) ensures col'[q].None? {
      if q > m + 1 { assert col[q - 1].None?; } else if q <= m { assert col[q].None?; }
    }
  }

  lemma NarrowedLink(nodes: seq<SkipListNode>, col: Column, nodes': seq<SkipListNode>, col': Column, m: nat, pos: nat)
    requires |col| == |nodes| && Inserted(nodes', nodes, m + 1) && ColumnInserted(col', col, m, pos)
    requires LastBefore(col, pos, m) && LinkOk(nodes, col, pos) && col[m + 1].None?
    requires col[pos].value.next != null ==> pos + col[pos].value.span > m
    requires col'[pos] == Some(Level(col[pos].value.next, col[pos].value.span - 1))
    ensures LinkOk(nodes', col', pos)
  {
    var l := col[pos].value;
    if l.next != null {
      assert pos + l.span != m + 1;
      assert nodes[pos + l.span] == nodes'[pos + l.span - 1];
      assert col[pos + l.span] == col'[pos + l.span - 1];
    }
    forall q | pos < q < (if l.next == null then |col'| else pos + l.span - 1) ensures col'[q].None? {
      if q > m { assert col[q + 1].None?; } else { assert col[q].None?; }
    }
  }

  /** The two halves of a link that is split by a node entering after position `m`. */
  lemma SplitLink(nodes: seq<SkipListNode>, col: Column, nodes': seq<SkipListNode>, col': Column, m: nat, pos: nat)
    requires |col| == |nodes| && Inserted(nodes, nodes', m + 1) && ColumnInserted(col, col', m, pos)
    requires LastBefore(col, pos, m) && LinkOk(nodes, col, pos)
    requires col[pos].value.next != null ==> pos + col[pos].value.span > m
    requires col'[pos] == Some(Level(nodes'[m + 1], 1 + m - pos))
    requires col'[m + 1] == Some(Level(col[pos].value.next, col[pos].value.span - (m - pos)))
    ensures LinkOk(nodes', col', pos) && LinkOk(nodes', col', m + 1)
  {
    var l := col[pos].value;
    forall q | pos < q <= m ensures col'[q].None? { assert col[q].None?; }
    forall q | m + 1 < q < (if l.next == null then |col'| else pos + l.span + 1) ensures col'[q].None? {
      assert col[q - 1].None?;
    }
  }

  /** The link that replaces the two halves when the node after position `m` leaves. */
  lemma JoinedLink(nodes: seq<SkipListNode>, col: Column, nodes': seq<SkipListNode>, col': Column, m: nat, pos: nat)
    requires |col| == |nodes| && Inserted(nodes', nodes, m + 1) && ColumnInserted(col', col, m, pos)
    requires LastBefore(col, pos, m) && LinkOk(nodes, col, pos) && col[m + 1].Some? && LinkOk(nodes, col, m + 1)
    requires col[pos].value.next != null ==> pos + col[pos].value.span > m
    requires col'[pos] == Some(Level(col[m + 1].value.next, col[pos].value.span + col[m + 1].value.span - 1))
    ensures LinkOk(nodes', col', pos)
  {
    var l, k := col[pos].value, col[m + 1].value;
    assert l.next != null && pos + l.span == m + 1;
    if k.next != null {
      assert nodes[m + 1 + k.span] == nodes'[m + k.span];
      assert col[m + 1 + k.span] == col'[m + k.span];
    }
    forall q | pos < q < (if k.next == null then |col'| else m + k.span) ensures col'[q].None? {
      if q > m { assert col[q + 1].None?; } else { assert col[q].None?; }
    }
  }

  /** One level of `Insert`: the entering node is passed over, or linked in. */
  lemma InsertLevel(nodes: seq<SkipListNode>, col: Column, nodes': seq<SkipListNode>, col': Column, m: nat, pos: nat)
    requires LevelOk(nodes, col) && LastBefore(col, pos, m)
    requires Inserted(nodes, nodes', m + 1) && ColumnInserted(col, col', m, pos)
    requires var l := col[pos].value;
      || (col'[m + 1] == None && col'[pos] == Some(Level(l.next, l.span + 1)))
      || (&& col'[m + 1] == Some(Level(l.next, l.span - (m - pos)))
          && col'[pos] == Some(Level(nodes'[m + 1], 1 + m - pos)))
    ensures LevelOk(nodes', col')
  {
    forall p' | 0 <= p' < |col'| && col'[p'].Some? ensures LinkOk(nodes', col', p') {
      InsertLink(nodes, col, nodes', col', m, pos, p');
    }
  }

  lemma InsertLink(nodes: seq<SkipListNode>, col: Column, nodes': seq<SkipListNode>, col': Column, m: nat, pos: nat,
                   p': nat)
    requires |col| == |nodes| && LevelOk(nodes, col) && LastBefore(col, pos, m)
    requires Inserted(nodes, nodes', m + 1) && ColumnInserted(col, col', m, pos)
    requires var l := col[pos].value;
      || (col'[m + 1] == None && col'[pos] == Some(Level(l.next, l.span + 1)))
      || (&& col'[m + 1] == Some(Level(l.next, l.span - (m - pos)))
          && col'[pos] == Some(Level(nodes'[m + 1], 1 + m - pos)))
    requires p' < |col'| && col'[p'].Some?
    ensures LinkOk(nodes', col', p')
  {
    hide LevelOk, LinkOk;
    StaysBehind(nodes, col, m, pos, pos);
    if p' == pos || p' == m + 1 {
      if col'[m + 1].None? {
        WidenedLink(nodes, col, nodes', col', m, pos);
      } else {
        SplitLink(nodes, col, nodes', col', m, pos);
      }
    } else {
      var p := if p' <= m then p' else p' - 1;
      StaysBehind(nodes, col, m, pos, p);
      LinkSurvives(nodes, col, nodes', col', m, pos, p);
    }
  }

  /** One level of `Delete`. */
  lemma RemoveLevel(nodes: seq<SkipListNode>, col: Column, nodes': seq<SkipListNode>, col': Column, m: nat, pos: nat)
    requires |col| == |nodes| && LevelOk(nodes, col) && LastBefore(col, pos, m)
    requires Inserted(nodes', nodes, m + 1) && ColumnInserted(col', col, m, pos)
    requires var l := col[pos].value;
      if col[m + 1].None? then col'[pos] == Some(Level(l.next, l.span - 1))
      else col'[pos] == Some(Level(col[m + 1].value.next, l.span + col[m + 1].value.span - 1))
    ensures LevelOk(nodes', col')
  {
    forall p' | 0 <= p' < |col'| && col'[p'].Some? ensures LinkOk(nodes', col', p') {
      RemoveLink(nodes, col, nodes', col', m, pos, p');
    }
  }

  lemma RemoveLink(nodes: seq<SkipListNode>, col: Column, nodes': seq<SkipListNode>, col': Column, m: nat, pos: nat,
                   p': nat)
    requires |col| == |nodes| && LevelOk(nodes, col) && LastBefore(col, pos, m)
    requires Inserted(nodes', nodes, m + 1) && ColumnInserted(col', col, m, pos)
    requires var l := col[pos].value;
      if col[m + 1].None? then col'[pos] == Some(Level(l.next, l.span - 1))
      else col'[pos] == Some(Level(col[m + 1].value.next, l.span + col[m + 1].value.span - 1))
    requires p' < |col'| && col'[p'].Some?
    ensures LinkOk(nodes', col', p')
  {
    hide LevelOk, LinkOk;
    StaysBehind(nodes, col, m, pos, pos);
    var p := if p' <= m then p' else p' + 1;
    assert p' > m ==> col[p] == col'[p - 1];
    if p' == pos {
      if col[m + 1].None? {
        NarrowedLink(nodes, col, nodes', col', m, pos);
      } else {
        StaysBehind(nodes, col, m, pos, m + 1);
        JoinedLink(nodes, col, nodes', col', m, pos);
      }
    } else {
      StaysBehind(nodes, col, m, pos, p);
      LinkOutlives(nodes, col, nodes', col', m, pos, p);
    }
  }

  class SkipListNode {
    const key: Key
    var prev: SkipListNode?
    var levels: seq<Level>

    constructor (key: Key, lv: nat)
      ensures this.key == key && prev == null && levels == seq(lv + 1, _ => Level(null, 0))
    {
      this.key := key;
      prev := null;
      levels := seq(lv + 1, _ => Level(null, 0));
    }

    /** Replaces the next pointer of level `i` and returns the previous one. */
    method SetNext(i: nat, n: SkipListNode?) returns (before: SkipListNode?)
      requires i < |levels|
      modifies this`levels
      ensures before == old(levels[i].next) && levels == old(levels[i := levels[i].(next := n)])
    {
      before := levels[i].next;
      levels := levels[i := levels[i].(next := n)];
    }

    method SetSpan(i: nat, s: int)
      requires i < |levels|
      modifies this`levels
      ensures levels == old(levels[i := levels[i].(span := s)])
    {
      levels := levels[i := levels[i].(span := s)];
    }
  }

  // ---------------------------------------------------------------- all levels, as a value

  /** The levels of each node, by position. */
  type Towers = seq<seq<Level>>

  ghost function TowersOf(nodes: seq<SkipListNode>): (t: Towers)
    reads nodes
    ensures |t| == |nodes| && forall p :: 0 <= p < |nodes| ==> t[p] == nodes[p].levels
  {
    seq(|nodes|, p requires 0 <= p < |nodes| reads nodes => nodes[p].levels)
  }

  ghost function Col(t: Towers, i: nat): (col: Column)
    ensures |col| == |t|
    ensures forall p :: 0 <= p < |t| ==> col[p] == if i < |t[p]| then Some(t[p][i]) else None
  {
    seq(|t|, p requires 0 <= p < |t| => if i < |t[p]| then Some(t[p][i]) else None)
  }

  /** The head is as tall as possible, and every node is on level 0. */
  ghost predicate Tall(t: Towers) {
    |t| > 0 && |t[0]| == MAX_LEVEL + 1 && forall p :: 1 <= p < |t| ==> 1 <= |t[p]|
  }

  /** No node but the head is higher than `level`. */
  ghost predicate Heights(t: Towers, level: nat) {
    Tall(t) && forall p :: 1 <= p < |t| ==> |t[p]| <= level
  }

  lemma HeadHeight(t: Towers)
    requires Tall(t)
    ensures |t| > 0 && |t[0]| == MAX_LEVEL + 1
  {
  }

  /** Levels from `level` on hold nothing. */
  ghost predicate Unused(t: Towers, level: nat)
    requires |t| > 0 && |t[0]| == MAX_LEVEL + 1
  {
    forall i :: level <= i <= MAX_LEVEL ==> t[0][i] == Level(null, 0)
  }

  ghost predicate LevelsOk(nodes: seq<SkipListNode>, t: Towers, level: nat) {
    forall i :: 0 <= i < level ==> LevelOk(nodes, Col(t, i))
  }

  /** Entry `i` of the tower at `pos` replaced. */
  ghost function PutEntry(t: Towers, pos: nat, i: nat, l: Level): (r: Towers)
    requires pos < |t| && i < |t[pos]|
  {
    t[pos := t[pos][i := l]]
  }

  lemma PutEntryCol(t: Towers, pos: nat, i: nat, l: Level, j: nat)
    requires pos < |t| && i < |t[pos]|
    ensures Col(PutEntry(t, pos, i, l), j) == if j == i then Col(t, j)[pos := Some(l)] else Col(t, j)
  {
  }

  /** The levels at `level` and above, below `mLevel`, opened: the head alone, at the full distance to the end. */
  ghost function Opened(t: Towers, level: nat, mLevel: nat): (r: Towers)
    requires |t| > 0 && |t[0]| == MAX_LEVEL + 1 && mLevel <= MAX_LEVEL
    ensures |r| == |t| && |r[0]| == |t[0]| && r[1..] == t[1..]
    ensures forall i :: 0 <= i <= MAX_LEVEL ==>
      r[0][i] == if level <= i < mLevel then Level(null, |t| - 1) else t[0][i]
    decreases mLevel - level
  {
    if level >= mLevel then t else PutEntry(Opened(t, level + 1, mLevel), 0, level, Level(null, |t| - 1))
  }

  lemma OpenedOk(nodes: seq<SkipListNode>, t: Towers, level: nat, mLevel: nat)
    requires |nodes| == |t| && Tall(t) && mLevel <= MAX_LEVEL && LevelsOk(nodes, t, level)
    requires level < mLevel ==> Heights(t, level)
    ensures |t[0]| == MAX_LEVEL + 1 && Opened(t, mLevel, mLevel) == t
    ensures Tall(Opened(t, level, mLevel)) && (Heights(t, level) ==> Heights(Opened(t, level, mLevel), level))
    ensures LevelsOk(nodes, Opened(t, level, mLevel), if level < mLevel then mLevel else level)
  {
    var r := Opened(t, level, mLevel);
    forall p | 1 <= p < |t| ensures r[p] == t[p] { assert r[1..][p - 1] == t[1..][p - 1]; }
    forall i | 0 <= i < level ensures LevelOk(nodes, Col(r, i)) {
      assert Col(r, i) == Col(t, i);
    }
    forall i | level <= i < mLevel ensures LevelOk(nodes, Col(r, i)) {
      assert LinkOk(nodes, Col(r, i), 0);
    }
  }

  ghost predicate HasKey(nodes: seq<SkipListNode>, key: Key) {
    exists p :: 1 <= p < |nodes| && nodes[p].key == key
  }

  /** `now` is `was` without its first node with `key`. */
  ghost predicate WithoutFirst(was: seq<SkipListNode>, now: seq<SkipListNode>, key: Key) {
    |was| > 0 && var k := Before(was, key) + 1; k < |was| && was[k].key == key && now == RemoveAt(was, k)
  }

  /** The keys of the nodes after the head, with repetitions. */
  ghost function KeysOf(nodes: seq<SkipListNode>): multiset<Key>
    requires |nodes| > 0
  {
    if |nodes| == 1 then multiset{} else KeysOf(nodes[..|nodes| - 1]) + multiset{nodes[|nodes| - 1].key}
  }

  lemma InsertPrefix(nodes: seq<SkipListNode>, k: nat, node: SkipListNode)
    requires 1 <= k <= |nodes|
    ensures var r, n := InsertAt(nodes, k, node), |nodes|;
      && r[n] == (if k == n then node else nodes[n - 1])
      && r[..n] == if k == n then nodes else InsertAt(nodes[..n - 1], k, node)
  {
    var r, n := InsertAt(nodes, k, node), |nodes|;
    if k < n { assert r[..n] == InsertAt(nodes[..n - 1], k, node); } else { assert r[..n] == nodes; }
  }

  lemma {:induction false} InsertAddsKey(nodes: seq<SkipListNode>, k: nat, node: SkipListNode)
    requires 1 <= k <= |nodes|
    ensures KeysOf(InsertAt(nodes, k, node)) == KeysOf(nodes) + multiset{node.key}
  {
    hide InsertAt;
    InsertPrefix(nodes, k, node);
    if k < |nodes| { InsertAddsKey(nodes[..|nodes| - 1], k, node); }
  }

  /** Membership and number of entries, in terms of the keys. */
  lemma {:induction false} KeysPresent(nodes: seq<SkipListNode>, key: Key)
    requires |nodes| > 0
    ensures HasKey(nodes, key) <==> key in KeysOf(nodes)
    ensures |nodes| == |KeysOf(nodes)| + 1
  {
    var n := |nodes| - 1;
    if n > 0 {
      KeysPresent(nodes[..n], key);
      if HasKey(nodes, key) {
        var p :| 1 <= p < |nodes| && nodes[p].key == key;
        if p < n { assert nodes[..n][p].key == key; }
      }
      if HasKey(nodes[..n], key) {
        var p :| 1 <= p < n && nodes[..n][p].key == key;
        assert nodes[p].key == key;
      }
    }
  }

  lemma RemoveDropsKey(was: seq<SkipListNode>, now: seq<SkipListNode>, key: Key)
    requires WithoutFirst(was, now, key)
    ensures |now| > 0 && KeysOf(was) == KeysOf(now) + multiset{key}
  {
    var k := Before(was, key) + 1;
    assert InsertAt(now, k, was[k]) == was;
    InsertAddsKey(now, k, was[k]);
  }

  ghost predicate Distinct(nodes: seq<SkipListNode>) {
    forall p, q :: 0 <= p < q < |nodes| ==> nodes[p] != nodes[q]
  }

  /** No node after the head precedes an earlier one. */
  ghost predicate Sorted(nodes: seq<SkipListNode>) {
    forall p, q :: 1 <= p < q < |nodes| ==> !Less(nodes[q].key, nodes[p].key)
  }

  /** How many nodes have a key less than `key`. */
  ghost function Before(nodes: seq<SkipListNode>, key: Key): (m: nat)
    requires |nodes| > 0
    ensures m < |nodes|
  {
    if |nodes| == 1 then 0
    else if Less(nodes[|nodes| - 1].key, key) then |nodes| - 1
    else Before(nodes[..|nodes| - 1], key)
  }

  lemma {:induction false} BeforeSplits(nodes: seq<SkipListNode>, key: Key)
    requires |nodes| > 0 && Sorted(nodes)
    ensures forall p :: 1 <= p < |nodes| ==> (Less(nodes[p].key, key) <==> p <= Before(nodes, key))
  {
    var n := |nodes|;
    if n > 1 {
      if Less(nodes[n - 1].key, key) {
        forall p | 1 <= p < n - 1 ensures Less(nodes[p].key, key) {
          LessOrder(nodes[p].key, nodes[n - 1].key, key);
        }
      } else {
        BeforeSplits(nodes[..n - 1], key);
      }
    }
  }

  /** The rank of a key is the number of entries with a smaller one. */
  lemma BeforeCounts(nodes: seq<SkipListNode>, key: Key)
    requires |nodes| > 0 && Sorted(nodes)
    ensures Before(nodes, key) == |set p | 1 <= p < |nodes| && Smaller(nodes[p].key, key)|
  {
    var m := Before(nodes, key);
    var smaller := set p | 1 <= p < |nodes| && Smaller(nodes[p].key, key);
    BeforeSplits(nodes, key);
    forall p: nat | 1 <= p < |nodes| ensures p in smaller <==> p <= m {
      LessMeans(nodes[p].key, key);
    }
    assert smaller == UpTo(m);
  }

  ghost function UpTo(m: nat): (s: set<int>)
    ensures |s| == m && forall p :: p in s <==> 1 <= p <= m
  {
    if m == 0 then {} else UpTo(m - 1) + {m}
  }

  /** A step of the walk stays before `key`. */
  lemma WalkOn(nodes: seq<SkipListNode>, col: Column, r: nat, key: Key)
    requires |nodes| > 0 && Sorted(nodes) && LevelOk(nodes, col) && r < |col| && col[r].Some?
    requires col[r].value.next != null && Less(col[r].value.next.key, key)
    ensures var r' := r + col[r].value.span;
      r < r' <= Before(nodes, key) && nodes[r'] == col[r].value.next && col[r'].Some?
  {
    assert LinkOk(nodes, col, r);
    BeforeSplits(nodes, key);
  }

  /** The walk ends at the last node before `key`. */
  lemma WalkEnds(nodes: seq<SkipListNode>, col: Column, r: nat, key: Key)
    requires |nodes| > 0 && Sorted(nodes) && LevelOk(nodes, col) && r < |col| && col[r].Some?
    requires r <= Before(nodes, key) && (col[r].value.next != null ==> !Less(col[r].value.next.key, key))
    ensures LastBefore(col, r, Before(nodes, key))
  {
    assert LinkOk(nodes, col, r);
    BeforeSplits(nodes, key);
  }

  lemma InsertKeepsSorted(nodes: seq<SkipListNode>, nodes': seq<SkipListNode>, node: SkipListNode)
    requires |nodes| > 0 && Sorted(nodes)
    requires var m := Before(nodes, node.key); Inserted(nodes, nodes', m + 1) && nodes'[m + 1] == node
    ensures Sorted(nodes')
  {
    hide Less, Before;
    var m := Before(nodes, node.key);
    BeforeSplits(nodes, node.key);
    forall p, q | 1 <= p < q < |nodes'| ensures !Less(nodes'[q].key, nodes'[p].key) {
      InsertKeepsOrder(nodes, nodes', node, m, p, q);
    }
  }

  lemma InsertKeepsOrder(nodes: seq<SkipListNode>, nodes': seq<SkipListNode>, node: SkipListNode, m: nat, p: nat,
                         q: nat)
    requires |nodes| > 0 && Sorted(nodes) && Inserted(nodes, nodes', m + 1) && nodes'[m + 1] == node
    requires forall p :: 1 <= p < |nodes| ==> (Less(nodes[p].key, node.key) <==> p <= m)
    requires 1 <= p < q < |nodes'|
    ensures !Less(nodes'[q].key, nodes'[p].key)
  {
    hide Less;
    if q == m + 1 {
      LessOrder(nodes[p].key, node.key, node.key);
    } else if p == m + 1 {
      assert nodes'[q] == nodes[q - 1];
    } else {
      assert !Less(nodes[if q <= m then q else q - 1].key, nodes[if p <= m then p else p - 1].key);
    }
  }

  class SkipList {
    var length: nat
    var level: nat
    const head: SkipListNode
    var tail: SkipListNode
    ghost var nodes: seq<SkipListNode>

    constructor ()
      ensures Valid() && Linked() && fresh(nodes) && nodes == [head] && level == 1
      ensures |head.levels| == 256 && head.key == Key(0xFFFF_FFFF, "")
    {
      length, level := 0, 1;
      var h := new SkipListNode(Key(0xFFFF_FFFF, ""), MAX_LEVEL);
      head, tail := h, h;
      nodes := [h];
      new;
      assert LinkOk(nodes, Col(TowersOf(nodes), 0), 0);
    }

    ghost predicate Shape()
      reads this
    {
      && |nodes| > 0 && nodes[0] == head && length == |nodes| - 1 && level <= MAX_LEVEL
      && Distinct(nodes) && Sorted(nodes)
    }

    /**
     What `Delete` leaves of `Valid`: the levels below the counter are sound, but nodes may be higher than it, and
     nothing is known of the levels above.
     */
    ghost predicate Live()
      reads this, nodes
    {
      Shape() && Tall(TowersOf(nodes)) && LevelsOk(nodes, TowersOf(nodes), level)
    }

    /** All chains sorted and nested, all spans exact; levels not in use are empty. */
    ghost predicate Valid()
      reads this, nodes
    {
      && Shape() && 1 <= level
      && Heights(TowersOf(nodes), level)
      && LevelsOk(nodes, TowersOf(nodes), level)
      && Unused(TowersOf(nodes), level)
    }

    /** The entries are in ascending order of score, and those of one score in ascending order of their strings. */
    lemma Ascending()
      requires Live()
      ensures forall p, q :: 1 <= p < q < |nodes| ==> nodes[p].key.score <= nodes[q].key.score
      ensures forall p, q :: 1 <= p < q < |nodes| && nodes[p].key.score == nodes[q].key.score ==>
        nodes[p].key.val == nodes[q].key.val || exists i: nat :: FirstLess(nodes[p].key.val, nodes[q].key.val, i)
    {
      forall p, q | 1 <= p < q < |nodes|
        ensures nodes[p].key == nodes[q].key || Smaller(nodes[p].key, nodes[q].key)
      {
        LessOrder(nodes[p].key, nodes[q].key, nodes[q].key);
        LessMeans(nodes[p].key, nodes[q].key);
      }
    }

    lemma LiveIfValid()
      requires Valid()
      ensures Live() && level > 0
    {
    }

    /** Back pointers and the tail pointer. */
    ghost predicate Linked()
      reads this, nodes
    {
      LinkedAs(nodes)
    }

    /** `SetSpan` on the node at `pos`. */
    method SetSpanAt(u: SkipListNode, i: nat, s: int, ghost pos: nat)
      requires Distinct(nodes) && pos < |nodes| && u == nodes[pos] && i < |u.levels|
      modifies u`levels
      ensures TowersOf(nodes) ==
        old(PutEntry(TowersOf(nodes), pos, i, TowersOf(nodes)[pos][i].(span := s)))
    {
      u.SetSpan(i, s);
    }

    method SetNextAt(u: SkipListNode, i: nat, n: SkipListNode?, ghost pos: nat) returns (before: SkipListNode?)
      requires Distinct(nodes) && pos < |nodes| && u == nodes[pos] && i < |u.levels|
      modifies u`levels
      ensures before == old(u.levels[i].next)
      ensures TowersOf(nodes) ==
        old(PutEntry(TowersOf(nodes), pos, i, TowersOf(nodes)[pos][i].(next := n)))
    {
      before := u.SetNext(i, n);
    }

    /** The walk along level `i` from a node before `key` stops at the last node of the level before `key`. */
    method WalkLevel(from: SkipListNode, rankFrom: int, i: nat, key: Key) returns (header: SkipListNode, rank: int)
      requires Shape() && LevelOk(nodes, Col(TowersOf(nodes), i))
      requires 0 <= rankFrom <= Before(nodes, key) && from == nodes[rankFrom] && i < |from.levels|
      ensures Placed(nodes, Col(TowersOf(nodes), i), header, rank, Before(nodes, key)) && i < |header.levels|
      ensures rankFrom <= rank <= Before(nodes, key) && header == nodes[rank]
    {
      hide Sorted, Distinct, LevelOk, Before, Less;
      ghost var m, col := Before(nodes, key), Col(TowersOf(nodes), i);
      header, rank := from, rankFrom;
      while header.levels[i].next != null && Less(header.levels[i].next.key, key)
        invariant rankFrom <= rank <= m && header == nodes[rank] && i < |header.levels|
        decreases m - rank
      {
        assert col[rank] == Some(header.levels[i]);
        WalkOn(nodes, col, rank, key);
        rank := rank + header.levels[i].span;
        header := header.levels[i].next;
        assert col[rank] == if i < |header.levels| then Some(header.levels[i]) else None;
      }
      assert col[rank] == Some(header.levels[i]);
      WalkEnds(nodes, col, rank, key);
    }

    /** The rank the walk along level `i` starts from; a level above the live ones is opened first. */
    method StartLevel(header: SkipListNode, rank: seq<int>, i: nat, ghost t: Towers) returns (r: int)
      requires Shape() && i < |rank| <= MAX_LEVEL && rank[i] == 0 && (i >= level ==> header == head)
      requires Tall(t) && (i >= level ==> Unused(t, level)) && |t| == |nodes|
      requires TowersOf(nodes) == Opened(t, if i < level then level else i + 1, |rank|)
      modifies head`levels
      ensures TowersOf(nodes) == Opened(t, if i < level then level else i, |rank|)
      ensures r == if i >= level - 1 || i == |rank| - 1 then 0 else rank[i + 1]
    {
      r := rank[i];
      if i >= level {
        r := 0;
        SetSpanAt(header, i, length, 0);
      } else if i == level - 1 || i == |rank| - 1 {
        r := 0;
      } else if r < level {
        r := rank[i + 1];
      }
    }

    /**
     Fills `update` with the last node before `key` on each level, and `rank` with its position, from vectors of nulls
     and zeros. Levels above the live ones are opened: they hold the head alone, at the full distance to the end.
     */
    method GetUpdateVec(key: Key, mLevel: nat) returns (update: seq<SkipListNode?>, rank: seq<int>)
      requires Live() && level <= mLevel <= MAX_LEVEL && (level < mLevel ==> Valid())
      modifies head`levels
      ensures TowersOf(nodes) == Opened(old(TowersOf(nodes)), level, mLevel)
      ensures |update| == |rank| == mLevel
      ensures mLevel > 0 ==>
        AllPlaced(nodes, TowersOf(nodes), update, rank, Before(nodes, key)) && rank[0] == Before(nodes, key)
    {
      hide Sorted, Distinct, Tall, Heights, Unused, LevelsOk, Opened, LevelOk, Before, LastBefore, Col, TowersOf, Less,
           Filled;
      update, rank := seq(mLevel, _ => null), seq(mLevel, _ => 0);
      ghost var m, t := Before(nodes, key), TowersOf(nodes);
      HeadHeight(t);
      ghost var goal := Opened(t, level, mLevel);
      OpenedOk(nodes, t, level, mLevel);
      FilledStart(nodes, goal, update, rank, m);
      var header, r := head, 0;
      var i := mLevel - 1;
      while i >= 0
        invariant -1 <= i < mLevel && Filled(nodes, goal, update, rank, m, i) && |update| == |rank| == mLevel
        invariant TowersOf(nodes) == Opened(t, if i < level then level else i + 1, mLevel)
        invariant 0 <= r <= m && header == nodes[r] && i < |header.levels|
        invariant r == if i + 1 < mLevel then rank[i + 1] else 0
        invariant i + 1 >= level ==> header == head && r == 0
      {
        FilledAt(nodes, goal, update, rank, m, i);
        r := StartLevel(header, rank, i, t);
        OpenedCol(nodes, t, if i < level then level else i, level, mLevel, i);
        header, r := WalkLevel(header, r, i, key);
        FilledStep(nodes, goal, update, rank, m, i, header, r);
        rank, update := rank[i := r], update[i := header];
        i := i - 1;
      }
      if mLevel > 0 { FilledEnd(nodes, goal, update, rank, m); }
    }

    /** The levels above the new node pass over it: one more position to skip. */
    method WidenLevels(update: seq<SkipListNode?>, rank: seq<int>, lv: nat, ghost m: nat)
      requires Distinct(nodes) && AllPlaced(nodes, TowersOf(nodes), update, rank, m) && level <= |rank|
      modifies nodes`levels
      ensures WidenedAbove(old(TowersOf(nodes)), TowersOf(nodes), rank, level, lv)
    {
      hide Distinct, AllPlaced, TowersOf, WidenedAbove;
      ghost var t := TowersOf(nodes);
      var i := level - 1;
      WidenStart(t, rank, level, if i < lv then lv else i);
      while i > lv
        invariant i < level && WidenedAbove(t, TowersOf(nodes), rank, level, if i < lv then lv else i)
      {
        ghost var t1 := TowersOf(nodes);
        WidenStep(nodes, t, t1, update, rank, m, level, i);
        SetSpanAt(update[i], i, update[i].levels[i].span + 1, rank[i]);
        i := i - 1;
      }
    }

    /** One level of the new node: `gap` is the distance from `u` to the position before the new node. */
    method LinkOne(u: SkipListNode, node: SkipListNode, i: nat, gap: int, ghost pos: nat)
      requires Distinct(nodes) && pos < |nodes| && u == nodes[pos] && i < |u.levels|
      requires node !in nodes && i < |node.levels|
      modifies u`levels, node`levels
      ensures TowersOf(nodes) == old(PutEntry(TowersOf(nodes), pos, i, Level(node, 1 + gap)))
      ensures node.levels == old(node.levels)[i := Level(old(u.levels)[i].next, old(u.levels)[i].span - gap)]
    {
      ghost var t := TowersOf(nodes);
      var temp := SetNextAt(u, i, node, pos);
      var _ := node.SetNext(i, temp);
      node.SetSpan(i, u.levels[i].span - gap);
      SetSpanAt(u, i, 1 + gap, pos);
      assert TowersOf(nodes)[pos] == t[pos][i := Level(node, 1 + gap)];
    }

    /** The levels of the new node take it in after `update[i]`. */
    method LinkLevels(update: seq<SkipListNode?>, rank: seq<int>, node: SkipListNode, ghost m: nat)
      requires Distinct(nodes) && AllPlaced(nodes, TowersOf(nodes), update, rank, m) && rank[0] == m
      requires node !in nodes && |node.levels| <= |rank|
      modifies nodes`levels, node`levels
      ensures |node.levels| == old(|node.levels|)
      ensures LinkedAbove(old(TowersOf(nodes)), TowersOf(nodes), node.levels, rank, m, node, -1)
    {
      hide Distinct, AllPlaced, TowersOf, LinkedAbove;
      ghost var t := TowersOf(nodes);
      var i := |node.levels| - 1;
      LinkStart(t, node.levels, rank, m, node);
      while i >= 0
        invariant -1 <= i < |node.levels| == old(|node.levels|)
        invariant LinkedAbove(t, TowersOf(nodes), node.levels, rank, m, node, i)
      {
        ghost var t1 := TowersOf(nodes);
        LinkStep(nodes, t, t1, node.levels, update, rank, m, node, i);
        LinkOne(update[i], node, i, rank[0] - rank[i], rank[i]);
        i := i - 1;
      }
    }

    /** The part of `Insert` that relinks: finds the place, widens the levels above, links the levels of `node`. */
    method Splice(node: SkipListNode, size: nat) returns (before: SkipListNode, rank0: int)
      requires Live() && node !in nodes && 0 < |node.levels| <= size <= MAX_LEVEL && level <= size
      requires (size == level || size == |node.levels|) && (level < size ==> Valid())
      modifies nodes`levels, node`levels
      ensures rank0 == Before(nodes, node.key) && before == nodes[rank0] && |node.levels| == old(|node.levels|)
      ensures Spliced(nodes, TowersOf(nodes), node, node.levels, rank0, size)
      ensures old(Valid()) ==> Fits(TowersOf(nodes), node.levels, rank0, size)
      ensures PrevsOf(nodes) == old(PrevsOf(nodes))
    {
      hide Sorted, Distinct, Tall, Heights, LevelsOk, Unused, Before, AllPlaced, Less, WidenedAbove, LinkedAbove,
           Opened, LevelOk, TowersOf, Spliced, Fits, FinalCols, PrevsOf;
      ghost var m, t0, valid := Before(nodes, node.key), TowersOf(nodes), Valid();
      var k := |node.levels|;
      HeadHeight(t0);
      var update, rank := GetUpdateVec(node.key, size);
      ghost var t1 := TowersOf(nodes);
      WidenLevels(update, rank, k - 1, m);
      ghost var t2 := TowersOf(nodes);
      WidenKeepsPlaces(nodes, t1, t2, update, rank, m, level, k - 1);
      LinkLevels(update, rank, node, m);
      SplicedTowers(nodes, t0, t1, t2, TowersOf(nodes), node.levels, update, rank, m, level, size, node);
      if valid { SplicedFits(t0, t1, TowersOf(nodes), node.levels, rank, m, level, size, node); }
      before, rank0 := update[0], rank[0];
    }

    /** The pointers of `Insert`: `node` is spliced in after the last smaller key, and the back pointers follow. */
    method Place(node: SkipListNode, size: nat) returns (number: nat)
      requires Live() && node !in nodes && 0 < |node.levels| <= size <= MAX_LEVEL && level <= size
      requires (size == level || size == |node.levels|) && (level < size ==> Valid())
      modifies this`tail, nodes, node
      ensures number == Before(nodes, node.key) + 1 && |node.levels| == old(|node.levels|)
      ensures Sound(InsertAt(nodes, number, node), size)
      ensures old(Valid()) ==> Ready(InsertAt(nodes, number, node), size)
      ensures old(Linked()) ==> LinkedAs(InsertAt(nodes, number, node))
    {
      hide Sorted, Distinct, LevelsOk, Unused, Before, Less, LevelOk, Heights, Tall, Spliced, Fits, BackPointers,
           PrevsOf, TowersOf, Sound, Ready;
      ghost var linked, valid := Linked(), Valid();
      var before, rank0 := Splice(node, size);
      number := rank0 + 1;
      ghost var t, prevs := TowersOf(nodes), PrevsOf(nodes);
      SplicedNext(nodes, t, node, node.levels, rank0, size);
      LinkBack(node, before, number);
      InsertedSound(nodes, t, node, rank0, size);
      if valid { InsertedReady(nodes, t, node, rank0, size); }
      if linked { InsertedLinked(prevs, node, number); }
    }

    lemma InsertedLinked(prevs: seq<SkipListNode?>, node: SkipListNode, k: nat)
      requires Distinct(nodes) && BackPointers(nodes, prevs) && 1 <= k <= |nodes| && node.prev == nodes[k - 1]
      requires tail == if k < |nodes| then nodes[|nodes| - 1] else node
      requires PrevsOf(nodes) == if k < |nodes| then prevs[k := node] else prevs
      ensures LinkedAs(InsertAt(nodes, k, node))
    {
      TailAfterInsert(nodes, node, k);
      InsertKeepsBackPointers(nodes, prevs, node, k);
    }

    /** The nodes, as they are, make `size` sound levels. */
    static ghost predicate Sound(nodes: seq<SkipListNode>, size: nat)
      reads nodes
    {
      Distinct(nodes) && Sorted(nodes) && Tall(TowersOf(nodes)) && LevelsOk(nodes, TowersOf(nodes), size)
    }

    /** The nodes, as they are, make a valid list of `size` levels. */
    static ghost predicate Ready(nodes: seq<SkipListNode>, size: nat)
      reads nodes
    {
      && Distinct(nodes) && Sorted(nodes)
      && Heights(TowersOf(nodes), size) && Unused(TowersOf(nodes), size) && LevelsOk(nodes, TowersOf(nodes), size)
    }

    ghost predicate LinkedAs(nodes: seq<SkipListNode>)
      reads this, nodes
    {
      |nodes| > 0 && tail == nodes[|nodes| - 1] && BackPointers(nodes, PrevsOf(nodes))
    }

    /**
     Links a new node of height `lv + 1` after the last smaller key; returns it and its 1-based position. On a list that
     `Delete` has left, the new node must not reach the level counter.
     */
    method Insert(key: Key, lv: nat) returns (node: SkipListNode, number: nat)
      requires Live() && (Valid() || lv < level) && lv < MAX_LEVEL
      modifies this, nodes
      ensures Live() && (old(Valid()) ==> Valid()) && fresh(node) && node.key == key && |node.levels| == lv + 1
      ensures number == old(Before(nodes, key)) + 1 && nodes == InsertAt(old(nodes), number, node)
      ensures number == 1 + |set p | 1 <= p < |old(nodes)| && Smaller(old(nodes)[p].key, key)|
      ensures KeysOf(nodes) == old(KeysOf(nodes)) + multiset{key}
      ensures level == if lv >= old(level) then lv + 1 else old(level)
      ensures old(Linked()) ==> Linked()
    {
      hide Sorted, Distinct, Heights, Tall, LevelsOk, Unused, KeysOf, Before, Less, BackPointers, Ready, Sound;
      BeforeCounts(nodes, key);
      node := new SkipListNode(key, lv);
      ghost var linked, valid := Linked(), Valid();
      number := Place(node, if lv >= level then lv + 1 else level);
      InsertAddsKey(nodes, number, node);
      Record(node, number, lv, linked, valid);
    }

    /** `GetUpdateVec` for the live levels only: nothing changes. */
    method Locate(key: Key) returns (update: seq<SkipListNode?>, rank: seq<int>)
      requires Live()
      modifies head`levels
      ensures Live() && (old(Valid()) ==> Valid())
      ensures head.levels == old(head.levels) && TowersOf(nodes) == old(TowersOf(nodes)) && |rank| == level
      ensures level > 0 ==>
        AllPlaced(nodes, TowersOf(nodes), update, rank, Before(nodes, key)) && rank[0] == Before(nodes, key)
    {
      hide Sorted, LevelsOk, Unused, Before, Less, Opened, AllPlaced;
      ghost var t := TowersOf(nodes);
      update, rank := GetUpdateVec(key, level);
      OpenNone(t, level);
      assert head.levels == t[0];
    }

    /**
     The node with `key`, on whichever level it is met, with its 1-based position; null and 0 if there is none. Of
     several nodes with `key` it is the first of those that are highest, as far as the counter shows. With the level
     counter at 0 no level is searched and nothing is found.
     */
    method Find(key: Key) returns (node: SkipListNode?, number: int)
      requires Live()
      modifies head`levels
      ensures Live() && (old(Valid()) ==> Valid()) && head.levels == old(head.levels)
      ensures node != null <==> level > 0 && HasKey(nodes, key)
      ensures node != null ==> 1 <= number < |nodes| && nodes[number] == node && node.key == key
      ensures node == null ==> number == 0
      ensures node != null ==> forall p :: 1 <= p < |nodes| && nodes[p].key == key ==>
        && Capped(|nodes[p].levels|, level) <= Capped(|node.levels|, level)
        && (p < number ==> Capped(|nodes[p].levels|, level) < Capped(|node.levels|, level))
    {
      hide Sorted, LevelsOk, Unused, Before, Less, LevelOk, LastBefore, AllPlaced, TowersOf, Distinct, Tall, Heights;
      var update, rank := Locate(key);
      ghost var m, t := Before(nodes, key), TowersOf(nodes);
      var i := level - 1;
      while i >= 0
        invariant -1 <= i < level
        invariant i < level - 1 ==> NoHigher(nodes, t, key, i + 1)
        modifies {}
      {
        StepFrom(nodes, t, update, rank, m, level, i);
        FindStep(nodes, t, update, rank, m, level, i, key);
        assert update[i].levels == t[rank[i]];
        var next := update[i].levels[i].next;
        if next != null && next.key == key {
          assert HasKey(nodes, key) by { assert nodes[rank[i] + update[i].levels[i].span].key == key; }
          forall p | 0 <= p < |nodes| ensures nodes[p].levels == t[p] {}
          return next, rank[i] + update[i].levels[i].span;
        }
        i := i - 1;
      }
      if level > 0 { NoneAtAll(nodes, t, key); }
      return null, 0;
    }

    /**
     The unlinking half of `Delete`: levels that pass over the node are narrowed, levels that hold it lead past it.
     Returns null, with nothing changed, if no node has `key`.
     */
    method Unlink(key: Key) returns (node: SkipListNode?)
      requires Live() && level > 0
      modifies nodes`levels
      ensures node != null <==> HasKey(nodes, key)
      ensures node == null ==> Live() && (old(Valid()) ==> Valid()) && TowersOf(nodes) == old(TowersOf(nodes))
      ensures node != null ==> node.key == key
      ensures var k := Before(nodes, key) + 1;
        node != null ==>
          && k < |nodes| && WithoutFirst(nodes, RemoveAt(nodes, k), key)
          && Sound(RemoveAt(nodes, k), level) && (old(Valid()) ==> Ready(RemoveAt(nodes, k), level))
      ensures PrevsOf(nodes) == old(PrevsOf(nodes))
    {
      hide Sorted, LevelsOk, Unused, Before, Less, LevelOk, LastBefore, AllPlaced, Ready, Sound, Distinct, Tall,
           Heights, UnlinkedAbove, TowersOf, RemoveAt, PrevsOf;
      var update, rank := Locate(key);
      ghost var m, t := Before(nodes, key), TowersOf(nodes);
      StepFrom(nodes, t, update, rank, m, level, 0);
      assert update[0].levels == t[rank[0]];
      node := update[0].levels[0].next;
      if node == null || node.key != key {
        NotAfter(nodes, key);
        return null;
      }
      assert HasKey(nodes, key) by { assert nodes[m + 1].key == key; }
      UnlinkLevels(update, rank, node, m);
    }

    /** All levels of `Unlink`. */
    method UnlinkLevels(update: seq<SkipListNode?>, rank: seq<int>, node: SkipListNode, ghost m: nat)
      requires Live() && 0 < level == |rank| && AllPlaced(nodes, TowersOf(nodes), update, rank, m)
      requires m + 1 < |nodes| && node == nodes[m + 1]
      modifies nodes`levels
      ensures Sound(RemoveAt(nodes, m + 1), level) && (old(Valid()) ==> Ready(RemoveAt(nodes, m + 1), level))
      ensures PrevsOf(nodes) == old(PrevsOf(nodes))
    {
      hide LevelsOk, Unused, AllPlaced, Ready, Sound, Distinct, Sorted, Tall, Heights, UnlinkedAbove, TowersOf, PrevsOf;
      ghost var valid, t := Valid(), TowersOf(nodes);
      var top := NarrowLevels(update, rank, node, t, m);
      JoinLevels(update, rank, node, top, t, m);
      UnlinkedSound(nodes, t, TowersOf(nodes), update, rank, m, level);
      if valid { UnlinkedReady(nodes, t, TowersOf(nodes), rank, m, level); }
    }

    /** The levels above the leaving node are narrowed, down to its topmost level in use, which is returned. */
    method NarrowLevels(update: seq<SkipListNode?>, rank: seq<int>, node: SkipListNode, ghost t: Towers, ghost m: nat)
      returns (i: int)
      requires Distinct(nodes) && t == TowersOf(nodes) && Tall(t) && LevelsOk(nodes, t, level)
      requires AllPlaced(nodes, t, update, rank, m) && 1 <= level == |rank| && m + 1 < |nodes| && node == nodes[m + 1]
      modifies nodes`levels
      ensures 0 <= i == (if |t[m + 1]| < level then |t[m + 1]| else level) - 1
      ensures UnlinkedAbove(t, TowersOf(nodes), rank, m, level, i)
    {
      hide LevelsOk, AllPlaced, Distinct, Tall, UnlinkedAbove, TowersOf;
      UnlinkStart(nodes, t, update, rank, m, level);
      i := level - 1;
      while i >= 0 && update[i].levels[i].next != node
        invariant i < level && (i < level - 1 ==> |t[m + 1]| - 1 <= i)
        invariant UnlinkedAbove(t, TowersOf(nodes), rank, m, level, i)
        invariant EntryLeft(nodes, t, TowersOf(nodes), update, rank, m, i)
      {
        NarrowStep(nodes, t, TowersOf(nodes), update, rank, m, level, i);
        SetSpanAt(update[i], i, update[i].levels[i].span - 1, rank[i]);
        EntryStays(nodes, t, TowersOf(nodes), update, rank, m, level, i - 1);
        i := i - 1;
      }
      StepFrom(nodes, t, update, rank, m, level, i);
    }

    /** The levels of the leaving node, from its topmost level `top` down: each leads past it. */
    method JoinLevels(update: seq<SkipListNode?>, rank: seq<int>, node: SkipListNode, top: nat, ghost t: Towers,
                      ghost m: nat)
      requires Distinct(nodes) && AllPlaced(nodes, t, update, rank, m) && level == |rank| && |t| == |nodes|
      requires m + 1 < |nodes| && node == nodes[m + 1] && top < |t[m + 1]| && top < level
      requires UnlinkedAbove(t, TowersOf(nodes), rank, m, level, top)
      modifies nodes`levels
      ensures UnlinkedAbove(t, TowersOf(nodes), rank, m, level, -1)
    {
      hide AllPlaced, Distinct, UnlinkedAbove, TowersOf;
      var i: int := top;
      EntryStays(nodes, t, TowersOf(nodes), update, rank, m, level, i);
      while i >= 0
        invariant -1 <= i <= top && UnlinkedAbove(t, TowersOf(nodes), rank, m, level, i)
        invariant i >= 0 ==> EntryLeft(nodes, t, TowersOf(nodes), update, rank, m, i)
      {
        JoinStep(nodes, t, TowersOf(nodes), update, rank, m, level, i);
        UnlinkOne(update[i], node, i, rank[i], m + 1);
        if i > 0 { EntryStays(nodes, t, TowersOf(nodes), update, rank, m, level, i - 1); }
        i := i - 1;
      }
    }

    /** One level of the node that leaves: `u` takes over its link. */
    method UnlinkOne(u: SkipListNode, node: SkipListNode, i: nat, ghost pos: nat, ghost k: nat)
      requires Distinct(nodes) && pos < k < |nodes| && u == nodes[pos] && node == nodes[k]
      requires i < |u.levels| && i < |node.levels|
      modifies u`levels, node`levels
      ensures TowersOf(nodes) == old(UnlinkEntry(TowersOf(nodes), pos, k, i))
    {
      ghost var t := TowersOf(nodes);
      var next := node.levels[i].next;
      var _ := SetNextAt(u, i, next, pos);
      var _ := SetNextAt(node, i, null, k);
      SetSpanAt(u, i, u.levels[i].span + node.levels[i].span - 1, pos);
      ghost var joined: Level := Level(next, u.levels[i].span);
      assert TowersOf(nodes)[pos] == t[pos][i := joined];
    }

    /**
     Removes the node with `key`; false, with nothing changed, if there is none.

     The level counter ends at the highest level still in use, which is one too low: it counts levels. So a valid list
     is left valid exactly when the last node has gone; the counter is then below zero, that is, 255. Otherwise what is
     left is live: levels below the counter are sound.
     */
    method Delete(key: Key) returns (found: bool)
      requires Live() && level > 0
      modifies this`level, this`length, this`nodes, nodes`levels
      ensures found <==> HasKey(old(nodes), key)
      ensures !found ==> Live() && (old(Valid()) ==> Valid()) && nodes == old(nodes) && level == old(level)
      ensures !found ==> TowersOf(nodes) == old(TowersOf(nodes))
      ensures found ==> WithoutFirst(old(nodes), nodes, key)
      ensures found ==> |nodes| > 0 && KeysOf(old(nodes)) == KeysOf(nodes) + multiset{key}
      ensures found ==> Sound(nodes, old(level)) && length == |nodes| - 1
      ensures found ==> level == ByteOf(Highest(head.levels, old(level)))
      ensures found && |nodes| > 1 ==> Live()
      ensures found && old(Valid()) ==> Ready(nodes, old(level))
      ensures found && old(Valid()) ==> level == if |nodes| == 1 then 255 else Highest(head.levels, MAX_LEVEL)
      ensures found && old(Valid()) ==> (Valid() <==> |nodes| == 1) && (|nodes| > 1 ==> level < old(level))
      ensures found && old(Linked()) ==> !Linked()
    {
      hide Sorted, Before, Less, LevelsOk, Unused, Distinct, Tall, Heights, BackPointers, TowersOf, PrevsOf, Highest,
           Ready, Sound, RemoveAt, KeysOf, WithoutFirst, HasKey;
      ghost var k, valid, linked, prevs := Before(nodes, key) + 1, Valid(), Linked(), PrevsOf(nodes);
      var node := Unlink(key);
      if node == null {
        return false;
      }
      assert PrevsOf(nodes) == prevs;
      if linked { DeleteBreaksBackPointers(nodes, k); }
      RemoveDropsKey(nodes, RemoveAt(nodes, k), key);
      Forget(k, valid, linked);
      return true;
    }

    /** The scalar fields after a removal. */
    method Forget(ghost k: nat, ghost valid: bool, ghost linked: bool)
      requires 1 <= k < |nodes| && nodes[0] == head && length == |nodes| - 1 && 1 <= level <= MAX_LEVEL
      requires Sound(RemoveAt(nodes, k), level) && (valid ==> Ready(RemoveAt(nodes, k), level))
      requires linked ==> !LinkedAs(RemoveAt(nodes, k))
      modifies this`level, this`length, this`nodes
      ensures nodes == old(RemoveAt(nodes, k)) && Sound(nodes, old(level)) && length == |nodes| - 1
      ensures level == ByteOf(Highest(head.levels, old(level)))
      ensures |nodes| > 1 ==> Live()
      ensures valid ==> Ready(nodes, old(level)) && (Valid() <==> |nodes| == 1)
      ensures valid ==> level == if |nodes| == 1 then 255 else Highest(head.levels, MAX_LEVEL)
      ensures valid && |nodes| > 1 ==> level < old(level)
      ensures linked ==> !Linked()
    {
      hide Sorted, Less, LevelsOk, Unused, Distinct, Tall, Heights, Highest, BackPointers;
      ghost var nodes', t, was := RemoveAt(nodes, k), TowersOf(RemoveAt(nodes, k)), level;
      HeadHeight(t);
      assert t[0] == head.levels;
      EmptyAtZero(nodes', t, level);
      if valid { HighestInUse(nodes', t, level, level); }
      if valid && |nodes'| == 1 { EmptyReady(nodes', t, level, MAX_LEVEL); }
      Trim();
      length := length - 1;
      nodes := nodes';
      if |nodes'| > 1 { FewerLevels(nodes', t, was, level); }
    }

    /** Lowers the level counter, an unsigned byte, once for each empty level, from the one above the live ones down. */
    method Trim()
      requires |head.levels| == MAX_LEVEL + 1 && 1 <= level <= MAX_LEVEL
      modifies this`level
      ensures level == ByteOf(Highest(head.levels, old(level)))
    {
      var i: int := level;
      while i >= 0
        invariant -1 <= i <= old(level) && level == (i + 256) % 256
        invariant Highest(head.levels, old(level)) == Highest(head.levels, i)
      {
        if head.levels[i].next == null {
          level := (level + 255) % 256;
        } else {
          break;
        }
        i := i - 1;
      }
    }

    /** The scalar fields after an insertion. */
    method Record(node: SkipListNode, number: nat, lv: nat, ghost linked: bool, ghost valid: bool)
      requires |nodes| > 0 && 1 <= number <= |nodes| && nodes[0] == head && length == |nodes| - 1
      requires lv < MAX_LEVEL && level <= MAX_LEVEL
      requires Sound(InsertAt(nodes, number, node), if lv >= level then lv + 1 else level)
      requires valid ==> Ready(InsertAt(nodes, number, node), if lv >= level then lv + 1 else level)
      requires linked ==> LinkedAs(InsertAt(nodes, number, node))
      modifies this`level, this`length, this`nodes
      ensures Live() && (valid ==> Valid()) && nodes == old(InsertAt(nodes, number, node))
      ensures level == if lv >= old(level) then lv + 1 else old(level)
      ensures linked ==> Linked()
    {
      hide Sorted, Distinct, LevelsOk, Unused, Heights, BackPointers;
      ghost var nodes' := InsertAt(nodes, number, node);
      if level <= lv {
        level := lv + 1;
      }
      length := length + 1;
      nodes := nodes';
    }

    /** The back pointers around the new node, or the tail. */
    method LinkBack(node: SkipListNode, before: SkipListNode, ghost k: nat)
      requires Distinct(nodes) && node !in nodes && 0 < |node.levels| && k <= |nodes|
      requires node.levels[0].next == if k < |nodes| then nodes[k] else null
      modifies this`tail, node`prev, nodes`prev
      ensures node.prev == before
      ensures tail == if k < |nodes| then old(tail) else node
      ensures TowersOf(nodes) == old(TowersOf(nodes))
      ensures PrevsOf(nodes) == if k < |nodes| then old(PrevsOf(nodes))[k := node] else old(PrevsOf(nodes))
    {
      node.prev := before;
      if node.levels[0].next != null {
        node.levels[0].next.prev := node;
      } else {
        tail := node;
      }
    }
  }

  /** An unsigned byte counted down to `h`, which is at least -1. */
  function ByteOf(h: int): int {
    if h < 0 then h + 256 else h
  }

  lemma FewerLevels(nodes: seq<SkipListNode>, t: Towers, level: nat, fewer: nat)
    requires LevelsOk(nodes, t, level) && fewer <= level
    ensures LevelsOk(nodes, t, fewer)
  {
  }

  /** The highest level, at most `i`, that leads anywhere; -1 if none does. */
  ghost function Highest(tower: seq<Level>, i: int): (h: int)
    requires -1 <= i < |tower|
    ensures -1 <= h <= i && (h >= 0 ==> tower[h].next != null)
    ensures forall j :: h < j <= i ==> tower[j].next == null
    decreases i + 1
  {
    if i < 0 || tower[i].next != null then i else Highest(tower, i - 1)
  }

  lemma {:induction false} HighestStable(tower: seq<Level>, i: int, i': int)
    requires -1 <= i <= i' < |tower| && forall j :: i < j <= i' ==> tower[j].next == null
    ensures Highest(tower, i') == Highest(tower, i)
    decreases i'
  {
    if i < i' { HighestStable(tower, i, i' - 1); }
  }

  lemma EmptyAtZero(nodes: seq<SkipListNode>, t: Towers, level: nat)
    requires |nodes| == |t| && Tall(t) && LevelsOk(nodes, t, level) && 1 <= level <= MAX_LEVEL
    ensures t[0][0].next == null <==> |nodes| == 1
    ensures Highest(t[0], level) == -1 ==> |nodes| == 1
  {
    var col := Col(t, 0);
    assert LinkOk(nodes, col, 0);
    if |nodes| > 1 { assert col[1].Some?; }
  }

  lemma InUseAt(nodes: seq<SkipListNode>, t: Towers, level: nat, h: nat)
    requires |nodes| == |t| && Heights(t, level) && LevelsOk(nodes, t, level) && h < level <= MAX_LEVEL
    requires t[0][h].next != null
    ensures !Heights(t, h)
  {
    var col := Col(t, h);
    assert LinkOk(nodes, col, 0);
    assert col[t[0][h].span].Some?;
  }

  /** Some node is as tall as the highest level in use, so a valid level counter exceeds it. */
  lemma HighestInUse(nodes: seq<SkipListNode>, t: Towers, level: nat, i: int)
    requires |nodes| == |t| && Heights(t, level) && LevelsOk(nodes, t, level) && Unused(t, level)
    requires level <= i <= MAX_LEVEL && 1 <= level
    ensures var h := Highest(t[0], i);
      && (h == -1 <==> |nodes| == 1)
      && (h >= 0 ==> h < level && !Heights(t, h))
      && h == Highest(t[0], MAX_LEVEL)
  {
    hide LevelsOk;
    HighestStable(t[0], i, MAX_LEVEL);
    HighestStable(t[0], level - 1, i);
    EmptyAtZero(nodes, t, level);
    var h := Highest(t[0], i);
    if h >= 0 { InUseAt(nodes, t, level, h); }
  }

  /** The back pointer, or the tail pointer, that led to the leaving node is left as it was. */
  lemma DeleteBreaksBackPointers(nodes: seq<SkipListNode>, k: nat)
    requires Distinct(nodes) && BackPointers(nodes, PrevsOf(nodes)) && 1 <= k < |nodes|
    ensures var r := RemoveAt(nodes, k); r[|r| - 1] != nodes[|nodes| - 1] || !BackPointers(r, PrevsOf(r))
  {
    var r := RemoveAt(nodes, k);
    if k < |nodes| - 1 {
      assert nodes[k + 1].prev == PrevsOf(nodes)[k + 1] == nodes[k];
      assert PrevsOf(r)[k] == r[k].prev == nodes[k] != r[k - 1];
    }
  }

  /** With no node left, any number of levels will do. */
  lemma EmptyReady(nodes: seq<SkipListNode>, t: Towers, level: nat, level': nat)
    requires |nodes| == |t| == 1 && Heights(t, level) && LevelsOk(nodes, t, level) && Unused(t, level)
    requires level <= level' <= MAX_LEVEL
    ensures Heights(t, level') && LevelsOk(nodes, t, level') && Unused(t, level')
  {
    forall j | 0 <= j < level' ensures LevelOk(nodes, Col(t, j)) {
      assert j < level ==> LevelOk(nodes, Col(t, j));
      assert LinkOk(nodes, Col(t, j), 0);
    }
  }

  lemma InsertedTowers(nodes: seq<SkipListNode>, node: SkipListNode, k: nat)
    requires k <= |nodes|
    ensures TowersOf(InsertAt(nodes, k, node)) == InsertAt(TowersOf(nodes), k, node.levels)
  {
  }

  lemma InsertKeepsDistinct(nodes: seq<SkipListNode>, node: SkipListNode, k: nat)
    requires Distinct(nodes) && node !in nodes && k <= |nodes|
    ensures Distinct(InsertAt(nodes, k, node))
  {
  }

  lemma InsertedSound(nodes: seq<SkipListNode>, t: Towers, node: SkipListNode, m: int, size: nat)
    requires |nodes| > 0 && Distinct(nodes) && Sorted(nodes) && node !in nodes && m == Before(nodes, node.key)
    requires t == TowersOf(nodes) && Spliced(nodes, t, node, node.levels, m, size)
    ensures SkipList.Sound(InsertAt(nodes, m + 1, node), size)
  {
    hide Sorted, Before, Less, LevelsOk, Tall, Distinct, TowersOf;
    InsertedTowers(nodes, node, m + 1);
    InsertKeepsDistinct(nodes, node, m + 1);
    InsertKeepsSorted(nodes, InsertAt(nodes, m + 1, node), node);
  }

  lemma InsertedReady(nodes: seq<SkipListNode>, t: Towers, node: SkipListNode, m: int, size: nat)
    requires t == TowersOf(nodes) && 0 <= m < |nodes| && SkipList.Sound(InsertAt(nodes, m + 1, node), size)
    requires Fits(t, node.levels, m, size)
    ensures SkipList.Ready(InsertAt(nodes, m + 1, node), size)
  {
    hide Sorted, LevelsOk, Distinct, TowersOf, Heights, Unused;
    InsertedTowers(nodes, node, m + 1);
  }

  lemma TailAfterInsert(nodes: seq<SkipListNode>, node: SkipListNode, k: nat)
    requires 1 <= k <= |nodes|
    ensures InsertAt(nodes, k, node)[|nodes|] == if k < |nodes| then nodes[|nodes| - 1] else node
  {
  }

  ghost predicate BackPointers(nodes: seq<SkipListNode>, prevs: seq<SkipListNode?>) {
    |prevs| == |nodes| && forall p :: 1 <= p < |nodes| ==> prevs[p] == nodes[p - 1]
  }

  ghost function PrevsOf(nodes: seq<SkipListNode>): (prevs: seq<SkipListNode?>)
    reads nodes`prev
    ensures |prevs| == |nodes| && forall p :: 0 <= p < |nodes| ==> prevs[p] == nodes[p].prev
  {
    if nodes == [] then [] else PrevsOf(nodes[..|nodes| - 1]) + [nodes[|nodes| - 1].prev]
  }

  lemma InsertKeepsBackPointers(nodes: seq<SkipListNode>, prevs: seq<SkipListNode?>, node: SkipListNode, k: nat)
    requires Distinct(nodes) && BackPointers(nodes, prevs) && 1 <= k <= |nodes| && node.prev == nodes[k - 1]
    requires PrevsOf(nodes) == if k < |nodes| then prevs[k := node] else prevs
    ensures BackPointers(InsertAt(nodes, k, node), PrevsOf(InsertAt(nodes, k, node)))
  {
    var nodes', now := InsertAt(nodes, k, node), PrevsOf(nodes);
    var after := if k < |nodes| then prevs[k := node] else prevs;
    assert PrevsOf(nodes') == InsertAt(after, k, nodes[k - 1]) by {
      forall p | 0 <= p < |nodes'| ensures nodes'[p].prev == InsertAt(after, k, nodes[k - 1])[p] {
        if p < k { assert nodes'[p].prev == now[p]; } else if p > k { assert nodes'[p].prev == now[p - 1]; }
      }
    }
    BackPointersAfter(nodes, prevs, node, k);
  }

  lemma BackPointersAfter(nodes: seq<SkipListNode>, prevs: seq<SkipListNode?>, node: SkipListNode, k: nat)
    requires BackPointers(nodes, prevs) && 1 <= k <= |nodes|
    ensures BackPointers(InsertAt(nodes, k, node),
                         InsertAt(if k < |nodes| then prevs[k := node] else prevs, k, nodes[k - 1]))
  {
    var nodes' := InsertAt(nodes, k, node);
    var after := InsertAt(if k < |nodes| then prevs[k := node] else prevs, k, nodes[k - 1]);
    forall p | 1 <= p < |nodes'| ensures after[p] == nodes'[p - 1] {
      if p > k + 1 { assert prevs[p - 1] == nodes[p - 2]; }
    }
  }

  lemma OpenNone(t: Towers, level: nat)
    requires Tall(t) && level <= MAX_LEVEL
    ensures Opened(t, level, level) == t
  {
  }

  /**
   Where `update[i]` leads on level `i`: nowhere, or past position `m`; to `m + 1` exactly if that node is so tall.
   */
  lemma StepFrom(nodes: seq<SkipListNode>, t: Towers, update: seq<SkipListNode?>, rank: seq<int>, m: nat, level: nat,
                 i: nat)
    requires Distinct(nodes) && |t| == |nodes| && Tall(t) && LevelsOk(nodes, t, level)
    requires AllPlaced(nodes, t, update, rank, m) && i < level == |rank|
    ensures |update| == |rank| && 0 <= rank[i] <= m < |nodes| && update[i] == nodes[rank[i]] && i < |t[rank[i]]|
    ensures var l := t[rank[i]][i];
      && (l.next != null ==> m < rank[i] + l.span < |nodes| && nodes[rank[i] + l.span] == l.next)
      && (m + 1 < |nodes| ==> (l.next == nodes[m + 1] <==> i < |t[m + 1]|))
      && (i == 0 ==> l.next == if m + 1 < |nodes| then nodes[m + 1] else null)
  {
    var col := Col(t, i);
    assert Placed(nodes, col, update[i], rank[i], m) && LevelOk(nodes, col);
    assert LinkOk(nodes, col, rank[i]);
    if m + 1 < |nodes| {
      assert col[m + 1].Some? <==> i < |t[m + 1]|;
      assert i == 0 ==> |t[m + 1]| >= 1;
    }
  }

  /** If the first node not before `key` does not have it, none has. */
  /** Of a height, what the levels below the counter show. */
  function Capped(h: nat, level: nat): nat {
    if h < level then h else level
  }

  /** No node with `key` is higher than `i`. */
  ghost predicate NoHigher(nodes: seq<SkipListNode>, t: Towers, key: Key, i: nat) {
    |t| == |nodes| && forall p :: 1 <= p < |nodes| && nodes[p].key == key ==> |t[p]| <= i
  }

  lemma NoneAtAll(nodes: seq<SkipListNode>, t: Towers, key: Key)
    requires Tall(t) && NoHigher(nodes, t, key, 0)
    ensures !HasKey(nodes, key)
  {
  }

  /** What lies between `update[i]` and the node it leads to on level `i`, and behind that node. */
  lemma FindStep(nodes: seq<SkipListNode>, t: Towers, update: seq<SkipListNode?>, rank: seq<int>, m: nat, level: nat,
                 i: nat, key: Key)
    requires Sorted(nodes) && |t| == |nodes| > 0 && LevelsOk(nodes, t, level) && m == Before(nodes, key)
    requires AllPlaced(nodes, t, update, rank, m) && i < level == |rank|
    requires 0 <= rank[i] < |t| && i < |t[rank[i]]|
    ensures var l := t[rank[i]][i];
      forall p :: 1 <= p < |nodes| && nodes[p].key == key ==>
        (l.next == null || p < rank[i] + l.span || l.next.key != key ==> |t[p]| <= i)
    ensures var l := t[rank[i]][i]; l.next != null ==> 0 <= rank[i] + l.span < |t| && i < |t[rank[i] + l.span]|
  {
    var col := Col(t, i);
    assert Placed(nodes, col, update[i], rank[i], m) && LevelOk(nodes, col);
    assert LinkOk(nodes, col, rank[i]);
    BeforeSplits(nodes, key);
    var l := t[rank[i]][i];
    if l.next != null { assert col[rank[i] + l.span].Some?; }
    hide LastBefore, LinkOk, Less;
    forall p | 1 <= p < |nodes| && nodes[p].key == key && (l.next == null || p < rank[i] + l.span || l.next.key != key)
      ensures |t[p]| <= i
    {
      LessOrder(key, key, key);
      assert col[p] == if i < |t[p]| then Some(t[p][i]) else None;
      if l.next != null { LessOrder(l.next.key, key, key); }
    }
  }

  lemma NotAfter(nodes: seq<SkipListNode>, key: Key)
    requires |nodes| > 0 && Sorted(nodes)
    requires var m := Before(nodes, key); m + 1 == |nodes| || nodes[m + 1].key != key
    ensures !HasKey(nodes, key)
  {
    hide Less, Before;
    var m := Before(nodes, key);
    BeforeSplits(nodes, key);
    forall p | 1 <= p < |nodes| ensures nodes[p].key != key {
      LessOrder(nodes[p].key, nodes[p].key, key);
      if p > m + 1 { LessOrder(nodes[m + 1].key, nodes[p].key, key); }
    }
  }

  /** At level `i` the entry at `pos` joined with the one at `k`, which is cut off. */
  ghost function UnlinkEntry(t: Towers, pos: nat, k: nat, i: nat): Towers
    requires pos < k < |t| && i < |t[pos]| && i < |t[k]|
  {
    PutEntry(PutEntry(t, pos, i, Level(t[k][i].next, t[pos][i].span + t[k][i].span - 1)), k, i,
             Level(null, t[k][i].span))
  }

  /** What unlinking the node after position `m` makes of one level. */
  ghost function UnlinkedCol(col: Column, pos: nat, m: nat): Column
    requires pos <= m && m + 1 < |col|
  {
    if col[pos].None? then col
    else
      var l := col[pos].value;
      if col[m + 1].None? then col[pos := Some(Level(l.next, l.span - 1))]
      else
        var k := col[m + 1].value;
        col[pos := Some(Level(k.next, l.span + k.span - 1))][m + 1 := Some(Level(null, k.span))]
  }

  /** From `t` to `t'` the levels above `i` have been unlinked. */
  ghost predicate UnlinkedAbove(t: Towers, t': Towers, rank: seq<int>, m: nat, level: nat, i: int) {
    forall j: nat :: Col(t', j) ==
      if i < j < level && j < |rank| && 0 <= rank[j] <= m && m + 1 < |t| then UnlinkedCol(Col(t, j), rank[j], m)
      else Col(t, j)
  }

  /** Level `i` of `update[i]` and of the leaving node are still as in `t`. */
  ghost predicate EntryLeft(nodes: seq<SkipListNode>, t: Towers, t1: Towers, update: seq<SkipListNode?>, rank: seq<int>,
                            m: nat, i: nat)
  {
    && i < |update| == |rank| && 0 <= rank[i] <= m && m + 1 < |t| == |t1| == |nodes| && update[i] == nodes[rank[i]]
    && i < |t1[rank[i]]| && i < |t[rank[i]]| && t1[rank[i]][i] == t[rank[i]][i]
    && (i < |t1[m + 1]| <==> i < |t[m + 1]|) && (i < |t[m + 1]| ==> t1[m + 1][i] == t[m + 1][i])
  }

  lemma EntryStays(nodes: seq<SkipListNode>, t: Towers, t1: Towers, update: seq<SkipListNode?>, rank: seq<int>,
                   m: nat, level: nat, i: nat)
    requires AllPlaced(nodes, t, update, rank, m) && UnlinkedAbove(t, t1, rank, m, level, i)
    requires |t| == |nodes| && m + 1 < |t| && i < |rank|
    ensures EntryLeft(nodes, t, t1, update, rank, m, i)
  {
    assert Placed(nodes, Col(t, i), update[i], rank[i], m);
    assert Col(t1, i) == Col(t, i);
    assert Col(t1, i)[m + 1] == Col(t, i)[m + 1];
    assert Col(t1, i)[rank[i]] == Col(t, i)[rank[i]];
  }

  lemma UnlinkStart(nodes: seq<SkipListNode>, t: Towers, update: seq<SkipListNode?>, rank: seq<int>, m: nat, level: nat)
    requires AllPlaced(nodes, t, update, rank, m) && |t| == |nodes| && m + 1 < |t| && 1 <= level == |rank|
    requires Tall(t)
    ensures UnlinkedAbove(t, t, rank, m, level, level - 1)
    ensures EntryLeft(nodes, t, t, update, rank, m, level - 1) && 1 <= |t[m + 1]|
  {
    EntryStays(nodes, t, t, update, rank, m, level, level - 1);
  }

  lemma NarrowStep(nodes: seq<SkipListNode>, t: Towers, t1: Towers, update: seq<SkipListNode?>, rank: seq<int>,
                   m: nat, level: nat, i: nat)
    requires Distinct(nodes) && |t| == |nodes| && Tall(t) && LevelsOk(nodes, t, level)
    requires AllPlaced(nodes, t, update, rank, m) && i < level == |rank|
    requires UnlinkedAbove(t, t1, rank, m, level, i) && EntryLeft(nodes, t, t1, update, rank, m, i)
    requires t1[rank[i]][i].next != nodes[m + 1]
    ensures i >= |t[m + 1]|
    ensures var l := t1[rank[i]][i];
      UnlinkedAbove(t, PutEntry(t1, rank[i], i, l.(span := l.span - 1)), rank, m, level, i - 1)
  {
    hide LevelsOk, Distinct, Tall, AllPlaced;
    StepFrom(nodes, t, update, rank, m, level, i);
    var l := t1[rank[i]][i];
    var t2 := PutEntry(t1, rank[i], i, l.(span := l.span - 1));
    assert Col(t, i)[m + 1].None?;
    forall j: nat ensures Col(t2, j) ==
      if i - 1 < j < level && j < |rank| && 0 <= rank[j] <= m && m + 1 < |t| then UnlinkedCol(Col(t, j), rank[j], m)
      else Col(t, j)
    {
      PutEntryCol(t1, rank[i], i, l.(span := l.span - 1), j);
    }
  }

  lemma JoinStep(nodes: seq<SkipListNode>, t: Towers, t1: Towers, update: seq<SkipListNode?>, rank: seq<int>,
                 m: nat, level: nat, i: nat)
    requires AllPlaced(nodes, t, update, rank, m) && i < level == |rank|
    requires UnlinkedAbove(t, t1, rank, m, level, i) && EntryLeft(nodes, t, t1, update, rank, m, i) && i < |t[m + 1]|
    ensures UnlinkedAbove(t, UnlinkEntry(t1, rank[i], m + 1, i), rank, m, level, i - 1)
  {
    hide AllPlaced;
    var l := Level(t1[m + 1][i].next, t1[rank[i]][i].span + t1[m + 1][i].span - 1);
    var t2, t3 := PutEntry(t1, rank[i], i, l), UnlinkEntry(t1, rank[i], m + 1, i);
    forall j: nat ensures Col(t3, j) ==
      if i - 1 < j < level && j < |rank| && 0 <= rank[j] <= m && m + 1 < |t| then UnlinkedCol(Col(t, j), rank[j], m)
      else Col(t, j)
    {
      PutEntryCol(t1, rank[i], i, l, j);
      PutEntryCol(t2, m + 1, i, Level(null, t1[m + 1][i].span), j);
    }
  }

  lemma SameTallness(t: Towers, t': Towers)
    requires |t'| == |t| && forall p: int, j: nat :: 0 <= p < |t| ==> (Col(t', j)[p].Some? <==> Col(t, j)[p].Some?)
    ensures forall p :: 0 <= p < |t| ==> |t'[p]| == |t[p]|
  {
    forall p | 0 <= p < |t| ensures |t'[p]| == |t[p]| {
      assert Col(t', |t[p]|)[p].Some? == Col(t, |t[p]|)[p].Some?;
      assert Col(t', |t'[p]|)[p].Some? == Col(t, |t'[p]|)[p].Some?;
    }
  }

  lemma ColRemove(t: Towers, k: nat, j: nat)
    requires k < |t|
    ensures Col(RemoveAt(t, k), j) == RemoveAt(Col(t, j), k)
  {
  }

  lemma UnlinkedColumn(col: Column, r: nat, m: nat)
    requires r <= m && m + 1 < |col| && col[r].Some?
    ensures var col' := RemoveAt(UnlinkedCol(col, r, m), m + 1);
      && ColumnInserted(col', col, m, r)
      && var l := col[r].value;
         if col[m + 1].None? then col'[r] == Some(Level(l.next, l.span - 1))
         else col'[r] == Some(Level(col[m + 1].value.next, l.span + col[m + 1].value.span - 1))
  {
  }

  lemma UnlinkedLevel(nodes: seq<SkipListNode>, t: Towers, t': Towers, u: SkipListNode?, r: nat, m: nat, j: nat)
    requires |t| == |t'| == |nodes| && LevelOk(nodes, Col(t, j)) && Placed(nodes, Col(t, j), u, r, m)
    requires m + 1 < |nodes| && r <= m && Col(t', j) == UnlinkedCol(Col(t, j), r, m)
    ensures LevelOk(RemoveAt(nodes, m + 1), Col(RemoveAt(t', m + 1), j))
  {
    hide LevelOk, UnlinkedCol, ColumnInserted, Col;
    PlacedSome(nodes, Col(t, j), u, r, m);
    ColRemove(t', m + 1, j);
    UnlinkedColumn(Col(t, j), r, m);
    RemoveLevel(nodes, Col(t, j), RemoveAt(nodes, m + 1), Col(RemoveAt(t', m + 1), j), m, r);
  }

  lemma UnlinkedHeights(t: Towers, t': Towers, rank: seq<int>, m: nat, level: nat)
    requires m + 1 < |t| && level <= |rank| && UnlinkedAbove(t, t', rank, m, level, -1)
    ensures |t'| == |t| && forall p :: 0 <= p < |t| ==> |t'[p]| == |t[p]|
  {
    assert |Col(t', 0)| == |Col(t, 0)|;
    forall p: int, j: nat | 0 <= p < |t| ensures Col(t', j)[p].Some? <==> Col(t, j)[p].Some? {}
    SameTallness(t, t');
  }

  lemma UnlinkedLevels(nodes: seq<SkipListNode>, t: Towers, t': Towers, update: seq<SkipListNode?>, rank: seq<int>,
                       m: nat, level: nat)
    requires |t| == |t'| == |nodes| && m + 1 < |t| && LevelsOk(nodes, t, level)
    requires AllPlaced(nodes, t, update, rank, m) && level == |rank| && UnlinkedAbove(t, t', rank, m, level, -1)
    ensures LevelsOk(RemoveAt(nodes, m + 1), RemoveAt(t', m + 1), level)
  {
    hide LevelOk, LastBefore;
    var nodes', r := RemoveAt(nodes, m + 1), RemoveAt(t', m + 1);
    forall j | 0 <= j < level ensures LevelOk(nodes', Col(r, j)) {
      assert Placed(nodes, Col(t, j), update[j], rank[j], m);
      PlacedSome(nodes, Col(t, j), update[j], rank[j], m);
      UnlinkedLevel(nodes, t, t', update[j], rank[j], m, j);
    }
  }

  lemma RemovedTowers(nodes: seq<SkipListNode>, k: nat)
    requires k < |nodes|
    ensures TowersOf(RemoveAt(nodes, k)) == RemoveAt(TowersOf(nodes), k)
  {
  }

  lemma UnlinkedSound(nodes: seq<SkipListNode>, t: Towers, t': Towers, update: seq<SkipListNode?>, rank: seq<int>,
                      m: nat, level: nat)
    requires t' == TowersOf(nodes) && Distinct(nodes) && Sorted(nodes)
    requires |t| == |nodes| && m + 1 < |t| && Tall(t) && LevelsOk(nodes, t, level)
    requires AllPlaced(nodes, t, update, rank, m) && level == |rank| && UnlinkedAbove(t, t', rank, m, level, -1)
    ensures SkipList.Sound(RemoveAt(nodes, m + 1), level)
  {
    hide LevelsOk, Less, AllPlaced, UnlinkedAbove, TowersOf, Distinct, Sorted;
    UnlinkedHeights(t, t', rank, m, level);
    UnlinkedLevels(nodes, t, t', update, rank, m, level);
    RemovedTowers(nodes, m + 1);
    RemoveKeepsOrder(nodes, m + 1);
  }

  /** The levels above the counter were not touched. */
  lemma UnlinkedReady(nodes: seq<SkipListNode>, t: Towers, t': Towers, rank: seq<int>, m: nat, level: nat)
    requires t' == TowersOf(nodes) && |t| == |nodes| && m + 1 < |t| && Heights(t, level) && Unused(t, level)
    requires level <= |rank| && UnlinkedAbove(t, t', rank, m, level, -1)
    requires SkipList.Sound(RemoveAt(nodes, m + 1), level)
    ensures SkipList.Ready(RemoveAt(nodes, m + 1), level)
  {
    hide LevelsOk, Distinct, Sorted, TowersOf, LastBefore;
    UnlinkedHeights(t, t', rank, m, level);
    RemovedTowers(nodes, m + 1);
    forall i | level <= i <= MAX_LEVEL ensures t'[0][i] == t[0][i] {
      assert Col(t', i)[0] == Col(t, i)[0];
    }
  }

  lemma RemoveKeepsOrder(nodes: seq<SkipListNode>, k: nat)
    requires Distinct(nodes) && Sorted(nodes) && 1 <= k < |nodes|
    ensures Distinct(RemoveAt(nodes, k)) && Sorted(RemoveAt(nodes, k))
  {
    hide Less;
    var r := RemoveAt(nodes, k);
    forall p, q | 0 <= p < q < |r| ensures r[p] != r[q] && (1 <= p ==> !Less(r[q].key, r[p].key)) {
      assert r[p] == nodes[if p < k then p else p + 1] && r[q] == nodes[if q < k then q else q + 1];
    }
  }

  /** With `node` after position `m`, the towers make `size` sound levels. */
  ghost predicate Spliced(
    nodes: seq<SkipListNode>, t: Towers, node: SkipListNode, tower: seq<Level>, m: int, size: nat)
  {
    && 0 <= m < |t| == |nodes|
    && var t', nodes' := InsertAt(t, m + 1, tower), InsertAt(nodes, m + 1, node);
       Tall(t') && LevelsOk(nodes', t', size)
  }

  /** With `tower` after position `m`, no tower is higher than `size`, and nothing is on the levels from there on. */
  ghost predicate Fits(t: Towers, tower: seq<Level>, m: int, size: nat) {
    0 <= m < |t| && var t' := InsertAt(t, m + 1, tower); Heights(t', size) && Unused(t', size)
  }

  /** On level 0 the new node leads to the node after it. */
  lemma SplicedNext(nodes: seq<SkipListNode>, t: Towers, node: SkipListNode, tower: seq<Level>, m: int, size: nat)
    requires Spliced(nodes, t, node, tower, m, size) && 0 < |tower| && 0 < size
    ensures 0 <= m < |t| == |nodes| && |t[0]| == MAX_LEVEL + 1
    ensures tower[0].next == if m + 1 < |nodes| then nodes[m + 1] else null
  {
    var t', nodes' := InsertAt(t, m + 1, tower), InsertAt(nodes, m + 1, node);
    var col := Col(t', 0);
    assert LevelOk(nodes', col) && LinkOk(nodes', col, m + 1);
    if m + 1 < |nodes| { assert col[m + 2].Some?; }
  }

  lemma WidenKeepsPlaces(nodes: seq<SkipListNode>, t: Towers, t': Towers, update: seq<SkipListNode?>, rank: seq<int>,
                         m: nat, level: nat, i: int)
    requires AllPlaced(nodes, t, update, rank, m) && WidenedAbove(t, t', rank, level, i)
    ensures AllPlaced(nodes, t', update, rank, m)
  {
    hide LastBefore;
    forall j | 0 <= j < |rank| ensures Placed(nodes, Col(t', j), update[j], rank[j], m) {
      assert Placed(nodes, Col(t, j), update[j], rank[j], m);
      WidenedPlace(nodes, Col(t, j), update[j], rank[j], m);
    }
  }

  lemma WidenedPlace(nodes: seq<SkipListNode>, col: Column, u: SkipListNode?, r: int, m: nat)
    requires Placed(nodes, col, u, r, m)
    ensures 0 <= r < |col| && Placed(nodes, Widened(col, r), u, r, m)
  {
  }

  /** What both loops of `Insert` have done to level `j`. */
  ghost predicate FinalCol(col: Column, col': Column, tower: seq<Level>, r: int, m: nat, node: SkipListNode, j: nat) {
    && 0 <= r < |col| && col[r].Some?
    && col' == (if j < |tower| then Relinked(col, r, m, node) else Widened(col, r))
    && (j < |tower| ==> tower[j] == SecondHalf(col, r, m))
  }

  ghost predicate FinalCols(
    t: Towers, t': Towers, tower: seq<Level>, rank: seq<int>, m: nat, node: SkipListNode, size: nat)
  {
    && |t'| == |t| && size <= |rank|
    && (forall j :: 0 <= j < size ==> FinalCol(Col(t, j), Col(t', j), tower, rank[j], m, node, j))
    && (forall j :: size <= j ==> Col(t', j) == Col(t, j))
  }

  lemma BothLoops(nodes: seq<SkipListNode>, t1: Towers, t2: Towers, t3: Towers, tower: seq<Level>,
                  update: seq<SkipListNode?>, rank: seq<int>, m: nat, level: nat, size: nat, node: SkipListNode)
    requires |nodes| == |t1| && 0 < |tower| <= size == |rank| && level <= size && (size == level || size == |tower|)
    requires AllPlaced(nodes, t1, update, rank, m)
    requires WidenedAbove(t1, t2, rank, level, |tower| - 1) && LinkedAbove(t2, t3, tower, rank, m, node, -1)
    ensures update[0] == nodes[rank[0]] && FinalCols(t1, t3, tower, rank, m, node, size)
  {
    hide LastBefore;
    assert Placed(nodes, Col(t1, 0), update[0], rank[0], m);
    assert |Col(t3, 0)| == |Col(t2, 0)| == |Col(t1, 0)|;
    forall j | 0 <= j < size ensures FinalCol(Col(t1, j), Col(t3, j), tower, rank[j], m, node, j) {
      assert Placed(nodes, Col(t1, j), update[j], rank[j], m);
      PlacedSome(nodes, Col(t1, j), update[j], rank[j], m);
      assert Col(t2, j) == if |tower| - 1 < j < level then Widened(Col(t1, j), rank[j]) else Col(t1, j);
      assert j < |tower| ==> Col(t2, j)[rank[j]].Some?;
    }
  }

  lemma FinalHeights(t: Towers, t': Towers, tower: seq<Level>, rank: seq<int>, m: nat, node: SkipListNode, size: nat)
    requires FinalCols(t, t', tower, rank, m, node, size)
    ensures forall p :: 0 <= p < |t| ==> |t'[p]| == |t[p]|
    ensures forall p, i :: 0 <= p < |t| && size <= i < |t[p]| ==> t'[p][i] == t[p][i]
  {
    forall p: int, j: nat | 0 <= p < |t| ensures Col(t', j)[p].Some? == Col(t, j)[p].Some? {
      if j < size { assert FinalCol(Col(t, j), Col(t', j), tower, rank[j], m, node, j); }
    }
    forall p | 0 <= p < |t| ensures |t'[p]| == |t[p]| {
      assert Col(t', |t[p]|)[p].Some? == Col(t, |t[p]|)[p].Some?;
      assert Col(t', |t'[p]|)[p].Some? == Col(t, |t'[p]|)[p].Some?;
    }
    forall p, i | 0 <= p < |t| && size <= i < |t[p]| ensures t'[p][i] == t[p][i] {
      assert Col(t', i)[p] == Col(t, i)[p];
    }
  }

  lemma ColInsert(t: Towers, k: nat, tower: seq<Level>, j: nat)
    requires k <= |t|
    ensures Col(InsertAt(t, k, tower), j) == InsertAt(Col(t, j), k, if j < |tower| then Some(tower[j]) else None)
  {
  }

  /** One level, before and after both loops. */
  lemma FinalColumn(col: Column, col3: Column, tower: seq<Level>, r: nat, m: nat, node: SkipListNode, j: nat)
    requires r <= m < |col| && FinalCol(col, col3, tower, r, m, node, j)
    ensures var col' := InsertAt(col3, m + 1, if j < |tower| then Some(tower[j]) else None);
      && ColumnInserted(col, col', m, r)
      && var l := col[r].value;
        || (col'[m + 1] == None && col'[r] == Some(Level(l.next, l.span + 1)))
        || (col'[m + 1] == Some(Level(l.next, l.span - (m - r))) && col'[r] == Some(Level(node, 1 + m - r)))
  {
  }

  lemma FinalLevel(nodes: seq<SkipListNode>, t: Towers, t': Towers, tower: seq<Level>, u: SkipListNode?, r: int,
                   m: nat, node: SkipListNode, j: nat)
    requires |t| == |t'| == |nodes| && LevelOk(nodes, Col(t, j)) && Placed(nodes, Col(t, j), u, r, m)
    requires FinalCol(Col(t, j), Col(t', j), tower, r, m, node, j)
    ensures m < |nodes| && LevelOk(InsertAt(nodes, m + 1, node), Col(InsertAt(t', m + 1, tower), j))
  {
    hide LevelOk, FinalCol, Col, ColumnInserted;
    PlacedSome(nodes, Col(t, j), u, r, m);
    ColInsert(t', m + 1, tower, j);
    FinalColumn(Col(t, j), Col(t', j), tower, r, m, node, j);
    InsertLevel(nodes, Col(t, j), InsertAt(nodes, m + 1, node), Col(InsertAt(t', m + 1, tower), j), m, r);
  }

  /** After both loops of `Insert`, the towers with the new one in place make sound levels again. */
  lemma SplicedTowers(nodes: seq<SkipListNode>, t0: Towers, t1: Towers, t2: Towers, t3: Towers, tower: seq<Level>,
                      update: seq<SkipListNode?>, rank: seq<int>, m: nat, level: nat, size: nat, node: SkipListNode)
    requires |nodes| == |t0| && Tall(t0) && LevelsOk(nodes, t0, level) && (level < size ==> Heights(t0, level))
    requires level <= size <= MAX_LEVEL && 0 < |tower| <= size == |rank| && (size == level || size == |tower|)
    requires t1 == Opened(t0, level, size) && AllPlaced(nodes, t1, update, rank, m)
    requires WidenedAbove(t1, t2, rank, level, |tower| - 1) && LinkedAbove(t2, t3, tower, rank, m, node, -1)
    ensures update[0] == nodes[rank[0]] && Spliced(nodes, t3, node, tower, m, size)
    ensures FinalCols(t1, t3, tower, rank, m, node, size) && m < |t1|
  {
    hide LevelOk, LastBefore, WidenedAbove, LinkedAbove, FinalCol;
    OpenedOk(nodes, t0, level, size);
    BothLoops(nodes, t1, t2, t3, tower, update, rank, m, level, size, node);
    FinalHeights(t1, t3, tower, rank, m, node, size);
    assert Placed(nodes, Col(t1, 0), update[0], rank[0], m);
    PlacedSome(nodes, Col(t1, 0), update[0], rank[0], m);
    var t', nodes' := InsertAt(t3, m + 1, tower), InsertAt(nodes, m + 1, node);
    forall j | 0 <= j < size ensures LevelOk(nodes', Col(t', j)) {
      assert Placed(nodes, Col(t1, j), update[j], rank[j], m);
      FinalLevel(nodes, t1, t3, tower, update[j], rank[j], m, node, j);
    }
  }

  lemma SplicedFits(t0: Towers, t1: Towers, t3: Towers, tower: seq<Level>, rank: seq<int>, m: nat, level: nat,
                    size: nat, node: SkipListNode)
    requires Heights(t0, level) && Unused(t0, level) && level <= size <= MAX_LEVEL && 0 < |tower| <= size
    requires t1 == Opened(t0, level, size) && m < |t1| && FinalCols(t1, t3, tower, rank, m, node, size)
    ensures Fits(t3, tower, m, size)
  {
    FinalHeights(t1, t3, tower, rank, m, node, size);
    hide FinalCols;
    forall p | 1 <= p < |t0| ensures t1[p] == t0[p] { assert t1[1..][p - 1] == t0[1..][p - 1]; }
  }

  /**
   From `t` to `t'` the levels above `i`, below the height of `tower`, lead to `node` at their ranks; `tower` holds
   the rest of the links that led on from there.
   */
  ghost predicate LinkedAbove(
    t: Towers, t': Towers, tower: seq<Level>, rank: seq<int>, m: nat, node: SkipListNode, i: int)
  {
    && (forall j: nat :: Col(t', j) ==
          if i < j < |tower| && j < |rank| && 0 <= rank[j] < |t| then Relinked(Col(t, j), rank[j], m, node)
          else Col(t, j))
    && (forall j: nat :: i < j < |tower| && j < |rank| && 0 <= rank[j] < |t| && Col(t, j)[rank[j]].Some? ==>
          tower[j] == SecondHalf(Col(t, j), rank[j], m))
  }

  ghost function Relinked(col: Column, pos: nat, m: nat, node: SkipListNode): Column
    requires pos < |col|
  {
    col[pos := Some(Level(node, 1 + m - pos))]
  }

  ghost function SecondHalf(col: Column, pos: nat, m: nat): Level
    requires pos < |col| && col[pos].Some?
  {
    Level(col[pos].value.next, col[pos].value.span - (m - pos))
  }

  lemma LinkStart(t: Towers, tower: seq<Level>, rank: seq<int>, m: nat, node: SkipListNode)
    ensures LinkedAbove(t, t, tower, rank, m, node, |tower| - 1)
  {
  }

  lemma LinkStep(nodes: seq<SkipListNode>, t: Towers, t1: Towers, tower: seq<Level>, update: seq<SkipListNode?>,
                 rank: seq<int>, m: nat, node: SkipListNode, i: nat)
    requires AllPlaced(nodes, t, update, rank, m) && i < |tower| <= |rank|
    requires LinkedAbove(t, t1, tower, rank, m, node, i)
    ensures |update| == |rank| && 0 <= rank[i] < |nodes| && update[i] == nodes[rank[i]]
    ensures |t1| == |nodes| && i < |t1[rank[i]]|
    ensures var l := t1[rank[i]][i];
      LinkedAbove(t, PutEntry(t1, rank[i], i, Level(node, 1 + m - rank[i])),
                  tower[i := Level(l.next, l.span - (m - rank[i]))], rank, m, node, i - 1)
  {
    hide LastBefore;
    assert Placed(nodes, Col(t, i), update[i], rank[i], m);
    assert Col(t1, i) == Col(t, i);
    assert Col(t, i)[rank[i]].Some? by { PlacedSome(nodes, Col(t, i), update[i], rank[i], m); }
    var l := Level(node, 1 + m - rank[i]);
    var t2 := PutEntry(t1, rank[i], i, l);
    forall j: nat ensures Col(t2, j) ==
      if i - 1 < j < |tower| && j < |rank| && 0 <= rank[j] < |t| then Relinked(Col(t, j), rank[j], m, node)
      else Col(t, j)
    {
      PutEntryCol(t1, rank[i], i, l, j);
    }
  }

  /** From `t` to `t'` the levels above `i` and below `level` have been widened at their ranks. */
  ghost predicate WidenedAbove(t: Towers, t': Towers, rank: seq<int>, level: nat, i: int) {
    forall j: nat :: Col(t', j) ==
      if i < j < level && j < |rank| && 0 <= rank[j] < |t| then Widened(Col(t, j), rank[j]) else Col(t, j)
  }

  ghost function Widened(col: Column, pos: nat): Column
    requires pos < |col|
  {
    if col[pos].None? then col else col[pos := Some(Level(col[pos].value.next, col[pos].value.span + 1))]
  }

  lemma WidenStart(t: Towers, rank: seq<int>, level: nat, i: int)
    requires i >= level - 1
    ensures WidenedAbove(t, t, rank, level, i)
  {
  }

  lemma WidenStep(nodes: seq<SkipListNode>, t: Towers, t1: Towers, update: seq<SkipListNode?>, rank: seq<int>, m: nat,
                  level: nat, i: nat)
    requires AllPlaced(nodes, t, update, rank, m) && i < level <= |rank| && WidenedAbove(t, t1, rank, level, i)
    ensures |update| == |rank| && 0 <= rank[i] < |nodes| && update[i] == nodes[rank[i]]
    ensures |t1| == |nodes| && i < |t1[rank[i]]|
    ensures var l := t1[rank[i]][i];
      WidenedAbove(t, PutEntry(t1, rank[i], i, l.(span := l.span + 1)), rank, level, i - 1)
  {
    hide LastBefore;
    assert Placed(nodes, Col(t, i), update[i], rank[i], m);
    assert Col(t1, i) == Col(t, i);
    assert Col(t, i)[rank[i]].Some? by { PlacedSome(nodes, Col(t, i), update[i], rank[i], m); }
    var l := t1[rank[i]][i];
    var t2 := PutEntry(t1, rank[i], i, l.(span := l.span + 1));
    forall j: nat ensures Col(t2, j) ==
      if i - 1 < j < level && j < |rank| && 0 <= rank[j] < |t| then Widened(Col(t, j), rank[j]) else Col(t, j)
    {
      PutEntryCol(t1, rank[i], i, l.(span := l.span + 1), j);
    }
  }

  lemma PlacedSome(nodes: seq<SkipListNode>, col: Column, u: SkipListNode?, r: int, m: nat)
    requires Placed(nodes, col, u, r, m)
    ensures 0 <= r <= m < |nodes| == |col| && col[r].Some?
  {
  }

  /** The vectors of `GetUpdateVec` are filled above level `i`. */
  ghost predicate Filled(
    nodes: seq<SkipListNode>, t: Towers, update: seq<SkipListNode?>, rank: seq<int>, m: nat, i: int)
  {
    && |update| == |rank|
    && (forall j :: 0 <= j <= i < |rank| ==> rank[j] == 0)
    && (forall j :: 0 <= j < |rank| && i < j ==> Placed(nodes, Col(t, j), update[j], rank[j], m))
  }

  lemma FilledStart(nodes: seq<SkipListNode>, t: Towers, update: seq<SkipListNode?>, rank: seq<int>, m: nat)
    requires |update| == |rank| && forall j :: 0 <= j < |rank| ==> rank[j] == 0
    ensures Filled(nodes, t, update, rank, m, |rank| - 1)
  {
  }

  lemma FilledAt(nodes: seq<SkipListNode>, t: Towers, update: seq<SkipListNode?>, rank: seq<int>, m: nat, i: nat)
    requires Filled(nodes, t, update, rank, m, i) && i < |rank|
    ensures rank[i] == 0 && |update| == |rank|
  {
  }

  lemma FilledStep(nodes: seq<SkipListNode>, t: Towers, update: seq<SkipListNode?>, rank: seq<int>, m: nat, i: nat,
                   u: SkipListNode, r: int)
    requires Filled(nodes, t, update, rank, m, i) && i < |rank| == |update| && Placed(nodes, Col(t, i), u, r, m)
    ensures Filled(nodes, t, update[i := u], rank[i := r], m, i - 1)
  {
  }

  lemma FilledEnd(nodes: seq<SkipListNode>, t: Towers, update: seq<SkipListNode?>, rank: seq<int>, m: nat)
    requires Filled(nodes, t, update, rank, m, -1) && |rank| > 0 && Tall(t)
    ensures AllPlaced(nodes, t, update, rank, m) && rank[0] == m
  {
    BottomRank(t, rank[0], m);
  }

  /** Every node is on level 0. */
  lemma BottomRank(t: Towers, r: nat, m: nat)
    requires Tall(t) && LastBefore(Col(t, 0), r, m)
    ensures r == m
  {
    assert Col(t, 0)[m].Some?;
  }

  /** Level `i` looks the same as soon as it has been opened. */
  lemma OpenedCol(nodes: seq<SkipListNode>, t: Towers, from: nat, level: nat, mLevel: nat, i: nat)
    requires |t| > 0 && |t[0]| == MAX_LEVEL + 1 && level <= mLevel <= MAX_LEVEL && i < mLevel
    requires LevelsOk(nodes, Opened(t, level, mLevel), mLevel) && level <= from && (i < level || from <= i)
    ensures Col(Opened(t, from, mLevel), i) == Col(Opened(t, level, mLevel), i)
    ensures LevelOk(nodes, Col(Opened(t, level, mLevel), i))
  {
    var a, b := Opened(t, from, mLevel), Opened(t, level, mLevel);
    forall p | 0 <= p < |t| ensures Col(a, i)[p] == Col(b, i)[p] {
      if p > 0 { assert a[p] == a[1..][p - 1] && b[p] == b[1..][p - 1]; }
    }
  }

  /** `u` is the last node of the level before position `m + 1`, and `r` its position. */
  ghost predicate Placed(nodes: seq<SkipListNode>, col: Column, u: SkipListNode?, r: int, m: nat) {
    |col| == |nodes| && 0 <= r && LastBefore(col, r, m) && u == nodes[r]
  }

  ghost predicate AllPlaced(nodes: seq<SkipListNode>, t: Towers, update: seq<SkipListNode?>, rank: seq<int>, m: nat) {
    && |update| == |rank| > 0
    && forall j :: 0 <= j < |rank| ==> Placed(nodes, Col(t, j), update[j], rank[j], m)
  }

  lemma InsertedMembers(nodes: seq<SkipListNode>, k: nat, node: SkipListNode)
    requires k <= |nodes|
    ensures forall e :: e in InsertAt(nodes, k, node) ==> e == node || e in nodes
  {
  }

  /** A list with two entries, both of one level. */
  method TwoEntries(a: Key, b: Key) returns (l: SkipList)
    ensures fresh(l) && fresh(l.head) && fresh(l.nodes) && l.Valid() && l.level == 1
    ensures |l.nodes| > 0 && KeysOf(l.nodes) == multiset{a, b}
  {
    hide *;
    l := new SkipList();
    assert l.nodes[0] == l.head;
    EmptyKeys(l.head);
    var first := AddEntry(l, a);
    forall i | 0 <= i < |l.nodes| ensures fresh(l.nodes[i]) {
      assert l.nodes[i] in l.nodes;
    }
    var second := AddEntry(l, b);
    forall i | 0 <= i < |l.nodes| ensures fresh(l.nodes[i]) {
      assert l.nodes[i] in l.nodes;
    }
    assert multiset{} + multiset{a} + multiset{b} == multiset{a, b};
  }

  lemma EmptyKeys(h: SkipListNode)
    ensures KeysOf([h]) == multiset{}
  {
  }

  method AddEntry(l: SkipList, key: Key) returns (node: SkipListNode)
    requires l.Valid() && l.level == 1 && |l.nodes| > 0
    modifies l, l.nodes
    ensures l.Valid() && l.level == 1 && fresh(node) && forall e :: e in l.nodes ==> e == node || e in old(l.nodes)
    ensures |l.nodes| > 0 && KeysOf(l.nodes) == old(KeysOf(l.nodes)) + multiset{key}
  {
    hide SkipList.Valid, SkipList.Linked, SkipList.Ready, Before, InsertAt, KeysOf;
    ghost var was := l.nodes;
    l.LiveIfValid();
    var number;
    node, number := l.Insert(key, 0);
    InsertedMembers(was, number, node);
  }

  /**
   Two entries of one level, one of them deleted: the list is not valid any more, its counter is 0, and the entry that
   is left is not found.
   */
  method DeleteThenFind() returns (l: SkipList, node: SkipListNode?)
    ensures fresh(l) && |l.nodes| == 2 && l.Live() && !l.Valid() && l.level == 0
    ensures HasKey(l.nodes, Key(1, "a")) && node == null
  {
    hide *;
    var a, b := Key(1, "a"), Key(2, "b");
    l := TwoEntries(a, b);
    KeysPresent(l.nodes, b);
    l.LiveIfValid();
    var found := l.Delete(b);
    assert KeysOf(l.nodes) == multiset{a};
    KeysPresent(l.nodes, a);
    var number;
    node, number := l.Find(a);
  }
}
