/** The records that the contract stores and returns. */
module SlaTypes {
  import opened Ints

  /** A ledger symbol; only equality is ever used on it. */
  type Symbol = string

  /** A ledger address; only equality is ever used on it. */
  type Address = nat

  /** The 32-byte digest of a configuration map. */
  type Hash = nat

  type ConfigMap = map<Symbol, SLAConfig>

  /** SHA-256 of the encoded configuration map, left uninterpreted: nothing below
      depends on more than that it is a function of the map. */
  type Digest = ConfigMap -> Hash

  datatype Option<+T> = None | Some(value: T)

  datatype SLAError =
    | AlreadyInitialized | NotInitialized | Unauthorized | ConfigNotFound | VersionMismatch
    | ContractPaused | NoPendingTransfer | InvalidThreshold | InvalidPenalty | InvalidSeverity
    | RetentionLimitOutOfRange | DuplicateOutageInput | InvalidPenaltyAmount | InvalidMTTR
    | ThresholdOutOfBounds | PenaltyOutOfBounds | RewardOutOfBounds | InvalidMonth

  /** `Trap` is a host trap (a failed `unwrap`, a division by zero): the invocation
      is aborted and leaves no effect. */
  datatype Result<+T> = Ok(value: T) | Err(error: SLAError) | Trap

  const CRITICAL: Symbol := "critical"
  const HIGH: Symbol := "high"
  const MEDIUM: Symbol := "medium"
  const LOW: Symbol := "low"

  const MET: Symbol := "met"
  const VIOL: Symbol := "viol"
  const REW: Symbol := "rew"
  const PEN: Symbol := "pen"
  const TOP: Symbol := "top"
  const EXCEL: Symbol := "excel"
  const GOOD: Symbol := "good"
  const POOR: Symbol := "poor"

  datatype SLAConfig = SLAConfig(
    threshold: u32,
    penalty: i128,
    reward: i128,
    topMultiplier: u32,
    excelMultiplier: u32,
    goodMultiplier: u32)

  datatype SLAResult = SLAResult(
    outageId: Symbol,
    status: Symbol,
    mttr: u32,
    threshold: u32,
    amount: i128,
    paymentType: Symbol,
    rating: Symbol,
    configHash: Hash,
    recordedAt: u64)

  datatype SimulationResult = SimulationResult(
    isBreach: bool,
    penaltyAmount: i128,
    uptimeBps: u32,
    appliedTier: Symbol)

  datatype SLAStats = SLAStats(
    totalCalculations: u64,
    totalViolations: u64,
    totalRewards: i128,
    totalPenalties: i128)
}
