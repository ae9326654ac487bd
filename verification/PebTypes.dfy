/** Types of segments and of the PEBs that belong to them (include/ssdfs_abi.h, include/ssdfs_constants.h). */
module PebTypes {

  const SB_SEG: nat := 1
  const INITIAL_SNAPSHOT_SEG: nat := 2
  const SEGBMAP_SEG: nat := 3
  const MAPTBL_SEG: nat := 4
  const LEAF_NODE_SEG: nat := 5
  const HYBRID_NODE_SEG: nat := 6
  const INDEX_NODE_SEG: nat := 7
  const USER_DATA_SEG: nat := 8

  const DATA_PEB: nat := 1
  const LNODE_PEB: nat := 2
  const HNODE_PEB: nat := 3
  const IDXNODE_PEB: nat := 4
  const INIT_SNAP_PEB: nat := 5
  const SBSEG_PEB: nat := 6
  const SEGBMAP_PEB: nat := 7
  const MAPTBL_PEB: nat := 8
  const PEB_TYPE_MAX: nat := 9

  /** SEG2PEB_TYPE */
  function Seg2PebType(segType: int): (r: nat)
    ensures 0 < r <= PEB_TYPE_MAX && (r == PEB_TYPE_MAX <==> !(SB_SEG <= segType <= USER_DATA_SEG))
  {
    if segType == USER_DATA_SEG then DATA_PEB
    else if segType == LEAF_NODE_SEG then LNODE_PEB
    else if segType == HYBRID_NODE_SEG then HNODE_PEB
    else if segType == INDEX_NODE_SEG then IDXNODE_PEB
    else if segType == INITIAL_SNAPSHOT_SEG then INIT_SNAP_PEB
    else if segType == SB_SEG then SBSEG_PEB
    else if segType == SEGBMAP_SEG then SEGBMAP_PEB
    else if segType == MAPTBL_SEG then MAPTBL_PEB
    else PEB_TYPE_MAX
  }

  /** Segments of different known types have PEBs of different types. */
  lemma Seg2PebTypeInjective(a: int, b: int)
    requires Seg2PebType(a) == Seg2PebType(b) != PEB_TYPE_MAX
    ensures a == b
  {
  }
}
