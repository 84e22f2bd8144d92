/** The `filter` command: keep the blocks whose type is in the keep list,
    in their original order, under their original keys, with their original
    payloads, behind the original header. */
module Filter {
  import opened Results
  import opened OrderedDict
  import BlockKey
  import KeepList
  import Sgff

  /** `int(key.split(".")[0]) in keep_types`. */
  predicate Kept(key: string, keep: seq<nat>)
  {
    var t := BlockKey.BlockType(key);
    t.Some? && t.value in keep
  }

  /** The entries of `blocks` whose key is kept, in their original order. */
  function Filtered<V>(blocks: Dict<string, V>, keep: seq<nat>): Dict<string, V>
  {
    if blocks == [] then []
    else
      var last := blocks[|blocks| - 1];
      Filtered(blocks[..|blocks| - 1], keep) + (if Kept(last.0, keep) then [last] else [])
  }

  /** The positions in `blocks` of the entries `Filtered` keeps, ascending. */
  function KeptPositions<V>(blocks: Dict<string, V>, keep: seq<nat>): seq<nat>
  {
    if blocks == [] then []
    else
      var n := |blocks| - 1;
      KeptPositions(blocks[..n], keep) + (if Kept(blocks[n].0, keep) then [n] else [])
  }

  /** The position of the first key whose type prefix is not an integer,
      or `|blocks|` when every key names a type. */
  function FirstUntyped<V>(blocks: Dict<string, V>): (i: nat)
    ensures i <= |blocks|
    ensures forall j :: 0 <= j < i ==> BlockKey.BlockType(blocks[j].0).Some?
    ensures i < |blocks| ==> BlockKey.BlockType(blocks[i].0).None?
  {
    if blocks == [] then 0
    else if BlockKey.BlockType(blocks[0].0).None? then 0
    else 1 + FirstUntyped(blocks[1..])
  }

  /** What the filter produces: the entries at exactly the kept positions,
      taken in ascending order and copied unchanged (key and payload). */
  lemma {:induction false} FilteredIsKeptSubsequence<V>(blocks: Dict<string, V>, keep: seq<nat>)
    ensures |Filtered(blocks, keep)| == |KeptPositions(blocks, keep)|
    ensures forall i :: 0 <= i < |KeptPositions(blocks, keep)| ==>
              KeptPositions(blocks, keep)[i] < |blocks|
              && Filtered(blocks, keep)[i] == blocks[KeptPositions(blocks, keep)[i]]
    ensures forall i, j :: 0 <= i < j < |KeptPositions(blocks, keep)| ==>
              KeptPositions(blocks, keep)[i] < KeptPositions(blocks, keep)[j]
    ensures forall p :: 0 <= p < |blocks| ==> (p in KeptPositions(blocks, keep) <==> Kept(blocks[p].0, keep))
  {
    if blocks != [] {
      var n := |blocks| - 1;
      var init := blocks[..n];
      FilteredIsKeptSubsequence(init, keep);
      var pos0, r0 := KeptPositions(init, keep), Filtered(init, keep);
      var pos, r := KeptPositions(blocks, keep), Filtered(blocks, keep);
      assert pos == pos0 + (if Kept(blocks[n].0, keep) then [n] else []);
      assert r == r0 + (if Kept(blocks[n].0, keep) then [blocks[n]] else []);
      forall i | 0 <= i < |pos| ensures pos[i] < |blocks| && r[i] == blocks[pos[i]] {
        if i < |pos0| {
          assert pos[i] == pos0[i] && r[i] == r0[i] == init[pos0[i]];
        }
      }
      forall p | 0 <= p < |blocks| ensures p in pos <==> Kept(blocks[p].0, keep) {
        if p < n {
          assert init[p] == blocks[p];
          assert p in pos <==> p in pos0;
        } else {
          assert n !in pos0;
        }
      }
    }
  }

  /** Filtering keeps keys distinct. */
  lemma FilteredDistinct<V>(blocks: Dict<string, V>, keep: seq<nat>)
    requires DistinctKeys(blocks)
    ensures DistinctKeys(Filtered(blocks, keep))
  {
    FilteredIsKeptSubsequence(blocks, keep);
    var pos, r := KeptPositions(blocks, keep), Filtered(blocks, keep);
    forall i, j | 0 <= i < j < |r| ensures r[i].0 != r[j].0 {
      assert pos[i] < pos[j] && r[i] == blocks[pos[i]] && r[j] == blocks[pos[j]];
    }
  }

  /** A key survives exactly when its type is kept, and then with the
      payload it had; indices in the keys are not renumbered. */
  lemma FilteredLookup<V>(blocks: Dict<string, V>, keep: seq<nat>, key: string)
    requires DistinctKeys(blocks)
    ensures key in Keys(Filtered(blocks, keep)) <==> key in Keys(blocks) && Kept(key, keep)
    ensures Get(Filtered(blocks, keep), key) == if Kept(key, keep) then Get(blocks, key) else None
  {
    FilteredIsKeptSubsequence(blocks, keep);
    if key in Keys(Filtered(blocks, keep)) {
      FilteredLookupKept(blocks, keep, key);
    }
    if key in Keys(blocks) && Kept(key, keep) {
      FilteredLookupFound(blocks, keep, key);
    }
  }

  lemma FilteredLookupKept<V>(blocks: Dict<string, V>, keep: seq<nat>, key: string)
    requires DistinctKeys(blocks)
    requires key in Keys(Filtered(blocks, keep))
    ensures key in Keys(blocks) && Kept(key, keep)
    ensures Get(Filtered(blocks, keep), key) == Get(blocks, key)
  {
    FilteredIsKeptSubsequence(blocks, keep);
    FilteredDistinct(blocks, keep);
    var pos, r := KeptPositions(blocks, keep), Filtered(blocks, keep);
    var i :| 0 <= i < |r| && r[i].0 == key;
    assert r[i] == blocks[pos[i]] && pos[i] in pos;
    assert Get(r, key) == Some(r[i].1);
    assert Get(blocks, key) == Some(blocks[pos[i]].1);
  }

  lemma FilteredLookupFound<V>(blocks: Dict<string, V>, keep: seq<nat>, key: string)
    requires key in Keys(blocks) && Kept(key, keep)
    ensures key in Keys(Filtered(blocks, keep))
  {
    FilteredIsKeptSubsequence(blocks, keep);
    var pos, r := KeptPositions(blocks, keep), Filtered(blocks, keep);
    var p :| 0 <= p < |blocks| && blocks[p].0 == key;
    assert p in pos;
    var i :| 0 <= i < |pos| && pos[i] == p;
    assert r[i].0 == key;
  }

  /** Every entry the filter keeps has a kept type. */
  lemma {:induction false} FilteredOnlyKept<V>(blocks: Dict<string, V>, keep: seq<nat>)
    ensures forall i :: 0 <= i < |Filtered(blocks, keep)| ==> Kept(Filtered(blocks, keep)[i].0, keep)
  {
    if blocks != [] {
      FilteredOnlyKept(blocks[..|blocks| - 1], keep);
    }
  }

  /** Filtering twice with the same keep list is filtering once. */
  lemma FilteredIdempotent<V>(blocks: Dict<string, V>, keep: seq<nat>)
    ensures Filtered(Filtered(blocks, keep), keep) == Filtered(blocks, keep)
  {
    FilteredOnlyKept(blocks, keep);
    FilteredKeepsAllKept(Filtered(blocks, keep), keep);
  }

  /** A directory whose every entry is kept passes through unchanged. */
  lemma {:induction false} FilteredKeepsAllKept<V>(blocks: Dict<string, V>, keep: seq<nat>)
    requires forall i :: 0 <= i < |blocks| ==> Kept(blocks[i].0, keep)
    ensures Filtered(blocks, keep) == blocks
  {
    if blocks != [] {
      var n := |blocks| - 1;
      FilteredKeepsAllKept(blocks[..n], keep);
      assert blocks[..n] + [blocks[n]] == blocks;
    }
  }

  /** Only the set of kept types matters: their order and repetitions in
      the keep list do not. */
  lemma {:induction false} FilteredBySetOfTypes<V>(blocks: Dict<string, V>, keep1: seq<nat>, keep2: seq<nat>)
    requires forall t :: t in keep1 <==> t in keep2
    ensures Filtered(blocks, keep1) == Filtered(blocks, keep2)
  {
    if blocks != [] {
      FilteredBySetOfTypes(blocks[..|blocks| - 1], keep1, keep2);
    }
  }

  /** Keeping type 6 of the blocks "0.0", "6.0", "6.1" and "9.0" leaves
      "6.0" and "6.1", in that order and with their payloads. */
  lemma KeepTypeSixExample<V>(a: V, b: V, c: V, d: V)
    ensures Filtered([(BlockKey.Render(0, 0), a), (BlockKey.Render(6, 0), b),
                      (BlockKey.Render(6, 1), c), (BlockKey.Render(9, 0), d)], [6])
            == [(BlockKey.Render(6, 0), b), (BlockKey.Render(6, 1), c)]
  {
    BlockKey.RenderedKeyType(0, 0);
    BlockKey.RenderedKeyType(6, 0);
    BlockKey.RenderedKeyType(6, 1);
    BlockKey.RenderedKeyType(9, 0);
    var blocks := [(BlockKey.Render(0, 0), a), (BlockKey.Render(6, 0), b),
                   (BlockKey.Render(6, 1), c), (BlockKey.Render(9, 0), d)];
    assert blocks[..3][..2][..1][..0] == [];
    assert Filtered(blocks[..3][..2][..1], [6]) == [];
    assert Filtered(blocks[..3][..2], [6]) == [blocks[1]];
    assert Filtered(blocks[..3], [6]) == [blocks[1], blocks[2]];
  }

  /** One turn of the filter loop: a kept entry is inserted under its key,
      which is still new since the input's keys are distinct, and any other
      entry leaves the result as it was. */
  lemma FilterTurn<V>(blocks: Dict<string, V>, i: nat, keep: seq<nat>)
    requires DistinctKeys(blocks) && i < |blocks|
    ensures Kept(blocks[i].0, keep) ==>
              Set(Filtered(blocks[..i], keep), blocks[i].0, blocks[i].1) == Filtered(blocks[..i + 1], keep)
    ensures !Kept(blocks[i].0, keep) ==> Filtered(blocks[..i], keep) == Filtered(blocks[..i + 1], keep)
  {
    assert blocks[..i + 1][..i] == blocks[..i];
    assert forall j :: 0 <= j < i ==> blocks[..i][j] == blocks[j];
    var key := blocks[i].0;
    if Kept(key, keep) {
      assert key !in Keys(blocks[..i]);
      FilteredLookup(blocks[..i], keep, key);
    }
  }

  /** `cmd_filter` between reading the input and writing the output: parse
      the keep list, then copy the kept blocks into a new object that shares
      the input's cookie. `int()` raising on a keep item or on a key prefix
      aborts the command; nothing is produced then. */
  method CmdFilter<V>(sgff: Sgff.SgffObject<V>, keep: string) returns (r: Result<Sgff.SgffObject<V>>)
    requires sgff.Valid()
    ensures KeepList.ParseKeepList(keep).ValueError? ==>
              r == ValueError(KeepList.ParseKeepList(keep).literal)
    ensures KeepList.ParseKeepList(keep).Ok? && FirstUntyped(sgff.blocks) < |sgff.blocks| ==>
              r == ValueError(BlockKey.TypePrefix(sgff.blocks[FirstUntyped(sgff.blocks)].0))
    ensures r.Ok? <==> KeepList.ParseKeepList(keep).Ok? && FirstUntyped(sgff.blocks) == |sgff.blocks|
    ensures r.Ok? ==> && fresh(r.value) && r.value.Valid()
                      && r.value.cookie == sgff.cookie
                      && r.value.blocks == Filtered(sgff.blocks, KeepList.ParseKeepList(keep).value)
  {
    match KeepList.ParseKeepList(keep) {
      case ValueError(lit) =>
        return ValueError(lit);
      case Ok(keepTypes) =>
        r := FilterBlocks(sgff, keepTypes);
    }
  }

  /** The loop of `cmd_filter`: a new object with the input's cookie,
      into which every block whose type is in `keepTypes` is inserted in
      iteration order. The first key whose prefix is not an integer makes
      `int()` raise. */
  method FilterBlocks<V>(sgff: Sgff.SgffObject<V>, keepTypes: seq<nat>) returns (r: Result<Sgff.SgffObject<V>>)
    requires sgff.Valid()
    ensures FirstUntyped(sgff.blocks) < |sgff.blocks| ==>
              r == ValueError(BlockKey.TypePrefix(sgff.blocks[FirstUntyped(sgff.blocks)].0))
    ensures FirstUntyped(sgff.blocks) == |sgff.blocks| ==>
              && r.Ok? && fresh(r.value) && r.value.Valid()
              && r.value.cookie == sgff.cookie
              && r.value.blocks == Filtered(sgff.blocks, keepTypes)
  {
    var blocks := sgff.blocks;
    var filtered := new Sgff.SgffObject(sgff.cookie);
    var i := 0;
    assert blocks[..0] == [];
    assert filtered.blocks == [] == Filtered(blocks[..0], keepTypes);
    while i < |blocks|
      invariant 0 <= i <= |blocks|
      invariant i <= FirstUntyped(blocks)
      invariant filtered.Valid() && filtered.cookie == sgff.cookie
      invariant filtered.blocks == Filtered(blocks[..i], keepTypes)
      invariant fresh(filtered)
    {
      var key, value := blocks[i].0, blocks[i].1;
      var blockType := BlockKey.BlockType(key);
      if blockType.None? {
        return ValueError(BlockKey.TypePrefix(key));
      }
      assert FirstUntyped(blocks) != i;
      FilterTurn(blocks, i, keepTypes);
      if blockType.value in keepTypes {
        filtered.SetBlock(key, value);
      }
      i := i + 1;
    }
    assert blocks[..i] == blocks;
    return Ok(filtered);
  }
}
