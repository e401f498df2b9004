// The packet drop reasons of the datapath (the VP_DROP_* codes of vr_packet.h,
// which is not part of this model).  Their numeric values are not known here, so
// a reason is a constructor; a code that names no reason is `Unlisted`.

module Drops {

  datatype DropReason =
      Discard
    | Pull
    | InvalidIf
    | InvalidArp
    | TrapNoIf
    | NowhereToGo
    | FlowQueueLimitExceeded
    | FlowNoMemory
    | FlowInvalidProtocol
    | FlowNatNoRflow
    | FlowActionDrop
    | FlowActionInvalid
    | FlowUnusable
    | FlowTableFull
    | InterfaceTxDiscard
    | InterfaceDrop
    | Duplicated
    | Push
    | TtlExceeded
    | InvalidNh
    | InvalidLabel
    | InvalidProtocol
    | InterfaceRxDiscard
    | InvalidMcastSource
    | HeadAllocFail
    | PcowFail
    | McastDfBit
    | McastCloneFail
    | NoMemory
    | RewriteFail
    | Misc
    | InvalidPacket
    | CksumErr
    | NoFmd
    | ClonedOriginal
    | InvalidVnid
    | Fragments
    | InvalidSource
    | L2NoRoute
    | FragmentQueueFail
    | VlanFwdTx
    | VlanFwdEnq
    | NewFlows
    | FlowEvict
    | TrapOriginal
    | LeafToLeaf
    | BmacIsidMismatch
    | PktLoop
    | NoCryptPath
    | InvalidHbsPkt
    | NoFragEntry
    | IcmpError
    | CloneFail
    | InvalidUnderlayEcmp

  /** A drop code as received from the kernel: a known reason or anything else. */
  datatype DropCode = Listed(reason: DropReason) | Unlisted
}
