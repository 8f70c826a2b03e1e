/** The configuration in flash, its cached copy, and the stack that is set up from it. */
module Storage {
  import opened Wrappers
  import opened Mesh
  import opened Counter

  // The hashed fields of a provisioned configuration: network state, secrets and device info.
  datatype Core = Core(networkState: nat, secrets: nat, deviceInfo: nat)

  datatype Configuration =
    | Unprovisioned(uuid: nat)
    | Provisioned(core: Core, sequence: u32, foundation: nat)

  // Hashes are ideal. Hashing a Configuration includes the enum's tag; hashing the
  // ProvisionedConfiguration inside it does not, so the two never agree.
  datatype Digest =
    | OfUnprovisioned(uuid: nat)
    | OfTaggedCore(core: Core)
    | OfBareCore(core: Core)

  function HashOfConfiguration(c: Configuration): Digest {
    match c
    case Unprovisioned(uuid) => OfUnprovisioned(uuid)
    case Provisioned(core, _, _) => OfTaggedCore(core)
  }

  datatype LatestLoad = NoLoad | LoadedUnprovisioned | LoadedProvisioned(hash: Digest, sequence: u32)

  type Threshold = t: u32 | 0 < t witness 1

  function SubWrapping(a: u32, b: u32): u32 {
    if a >= b then a - b else a + 0x1_0000_0000 - b
  }

  function ShouldWriteback(current: LatestLoad, new_: Configuration, threshold: Threshold): bool {
    match (current, new_)
    case (NoLoad, _) => true
    case (LoadedUnprovisioned, Provisioned(_, _, _)) => true
    case (LoadedProvisioned(_, _), Unprovisioned(_)) => true
    case (LoadedProvisioned(hash, sequence), Provisioned(_, newSequence, _)) =>
      if HashOfConfiguration(new_) != hash then true
      else if newSequence == sequence then false
      else newSequence % threshold == 0 || SubWrapping(newSequence, sequence) >= threshold
    case (_, _) => false
  }

  // ---------------------------------------------------------------- specification, on values

  datatype Stack = NoStack | UnprovisionedStack(uuid: nat) | ProvisionedStack(core: Core, counter: u32)

  // Flash survives a crash; the other three fields do not. None is a flash page that does not decode.
  datatype Node = Node(flash: Option<Configuration>, latest: LatestLoad, cached: Option<Configuration>, stack: Stack)

  function StoreStep(n: Node, config: Configuration, threshold: Threshold): Node {
    if !ShouldWriteback(n.latest, config, threshold) then n
    else n.(flash := Some(config),
            latest := match config
                      case Unprovisioned(_) => LoadedUnprovisioned
                      case Provisioned(_, sequence, _) => LoadedProvisioned(HashOfConfiguration(config), sequence))
  }

  // Only a provisioned configuration is written back.
  function PutStep(n: Node, config: Configuration, threshold: Threshold): Node {
    var n' := if config.Provisioned? then StoreStep(n, config, threshold) else n;
    n'.(cached := Some(config))
  }

  function LatestOf(c: Configuration): LatestLoad {
    match c
    case Unprovisioned(_) => LoadedUnprovisioned
    case Provisioned(core, sequence, _) => LoadedProvisioned(OfBareCore(core), sequence)
  }

  function LoadStep(n: Node): Node {
    if n.cached.Some? || n.flash.None? then n
    else n.(cached := n.flash, latest := LatestOf(n.flash.value))
  }

  // The boot-time jump: to the next multiple of one hundred but one.
  function Jump(sequence: u32): u32 {
    (sequence - sequence % 100 + 200) % 0x1_0000_0000
  }

  function InitStep(n: Node, threshold: Threshold): Node {
    var loaded := LoadStep(n);
    match loaded.cached
    case Some(Provisioned(core, sequence, foundation)) =>
      PutStep(loaded, Provisioned(core, Jump(sequence), foundation), threshold)
    case _ => loaded
  }

  // A crash loses everything but flash; the node then starts up again.
  function BootStep(n: Node, threshold: Threshold): Node {
    InitStep(n.(latest := NoLoad, cached := None, stack := NoStack), threshold)
  }

  // The stack a configuration calls for.
  function StackFor(stack: Stack, config: Configuration): Stack {
    match (stack, config)
    case (NoStack, Unprovisioned(uuid)) => UnprovisionedStack(uuid)
    case (ProvisionedStack(_, _), Unprovisioned(uuid)) => UnprovisionedStack(uuid)
    case (NoStack, Provisioned(core, sequence, _)) => ProvisionedStack(core, sequence)
    case (UnprovisionedStack(_), Provisioned(core, sequence, _)) => ProvisionedStack(core, sequence)
    case _ => stack
  }

  // The first half of a turn of the driver loop: read the configuration, set up the stack.
  function SetUpStep(n: Node, randomUuid: nat, threshold: Threshold): Node {
    var loaded := LoadStep(n);
    var ready := if loaded.cached.Some? then loaded else PutStep(loaded, Unprovisioned(randomUuid), threshold);
    ready.(stack := StackFor(ready.stack, ready.cached.value))
  }

  const FIRST_SEQUENCE: u32 := 800

  // What happens in a turn: an outbound message takes numbers, or provisioning completes.
  datatype Input = Idle | Send(numbers: nat) | ProvisioningDone(core: Core)

  function WorkStep(n: Node, input: Input): Node {
    match (input, n.stack)
    case (Send(k), ProvisionedStack(core, counter)) => n.(stack := ProvisionedStack(core, After(counter, k)))
    case (ProvisioningDone(core), UnprovisionedStack(_)) => n.(stack := ProvisionedStack(core, FIRST_SEQUENCE))
    case _ => n
  }

  // The numbers handed out in the turn.
  function NumbersOf(n: Node, input: Input): (numbers: seq<u32>)
    ensures n.stack.ProvisionedStack? && input.Send? ==> |numbers| == input.numbers
    ensures n.stack.ProvisionedStack? ==> forall i | 0 <= i < |numbers| :: numbers[i] == After(n.stack.counter, i)
  {
    if n.stack.ProvisionedStack? && input.Send? then seq(input.numbers, i requires 0 <= i => After(n.stack.counter, i)) else []
  }

  const DEFAULT_FOUNDATION: nat := 0

  // The second half of a turn: the configuration of the stack is put back.
  function SaveStep(n: Node, threshold: Threshold): Node {
    match n.stack
    case NoStack => n
    case UnprovisionedStack(uuid) => PutStep(n, Unprovisioned(uuid), threshold)
    case ProvisionedStack(core, counter) => PutStep(n, Provisioned(core, counter, DEFAULT_FOUNDATION), threshold)
  }

  function TurnStep(n: Node, randomUuid: nat, input: Input, threshold: Threshold): Node {
    SaveStep(WorkStep(SetUpStep(n, randomUuid, threshold), input), threshold)
  }

  // ---------------------------------------------------------------- the objects, updated in place

  class FlashBackingStore {
    var flash: Option<Configuration>
    var latestLoad: LatestLoad
    const sequenceThreshold: Threshold

    constructor (flash: Option<Configuration>, sequenceThreshold: Threshold)
      ensures this.flash == flash && latestLoad == NoLoad && this.sequenceThreshold == sequenceThreshold
    {
      this.flash, latestLoad, this.sequenceThreshold := flash, NoLoad, sequenceThreshold;
    }

    ghost function Image(): Node
      reads this
    {
      Node(flash, latestLoad, None, NoStack)
    }

    method Load() returns (config: Option<Configuration>)
      modifies this
      ensures flash == old(flash) && config == flash
      ensures latestLoad == if flash.Some? then LatestOf(flash.value) else old(latestLoad)
    {
      config := flash;
      match config
      case None =>
      case Some(Unprovisioned(_)) => latestLoad := LoadedUnprovisioned;
      case Some(Provisioned(core, sequence, _)) => latestLoad := LoadedProvisioned(OfBareCore(core), sequence);
    }

    method Store(config: Configuration)
      modifies this
      ensures Image() == StoreStep(old(Image()), config, sequenceThreshold)
    {
      if ShouldWriteback(latestLoad, config, sequenceThreshold) {
        flash := Some(config);
        match config
        case Unprovisioned(_) => latestLoad := LoadedUnprovisioned;
        case Provisioned(_, sequence, _) => latestLoad := LoadedProvisioned(HashOfConfiguration(config), sequence);
      }
    }
  }

  class Storage {
    const backingStore: FlashBackingStore
    var config: Option<Configuration>

    constructor (backingStore: FlashBackingStore)
      ensures this.backingStore == backingStore && config == None
    {
      this.backingStore, config := backingStore, None;
    }

    ghost function Image(): Node
      reads this, backingStore
    {
      Node(backingStore.flash, backingStore.latestLoad, config, NoStack)
    }

    method LoadIfNeeded()
      modifies this, backingStore
      ensures Image() == LoadStep(old(Image()))
    {
      if config.None? {
        config := backingStore.Load();
      }
    }

    method Put(newConfig: Configuration)
      modifies this, backingStore
      ensures Image() == PutStep(old(Image()), newConfig, backingStore.sequenceThreshold)
    {
      if newConfig.Provisioned? {
        backingStore.Store(newConfig);
      }
      config := Some(newConfig);
    }

    method Init()
      modifies this, backingStore
      ensures Image() == InitStep(old(Image()), backingStore.sequenceThreshold)
    {
      LoadIfNeeded();
      match config
      case Some(Provisioned(core, sequence, foundation)) =>
        var extra := sequence % 100;
        Put(Provisioned(core, (sequence - extra + 200) % 0x1_0000_0000, foundation));
      case _ =>
    }
  }

  // An outbound message takes its numbers from the shared counter, one after the other.
  method TakeNumbers(sequence: Sequence, k: nat) returns (numbers: seq<u32>)
    modifies sequence
    ensures sequence.seqNum == After(old(sequence.seqNum), k)
    ensures |numbers| == k && forall i | 0 <= i < k :: numbers[i] == After(old(sequence.seqNum), i)
  {
    numbers := [];
    for i := 0 to k
      invariant sequence.seqNum == After(old(sequence.seqNum), i)
      invariant |numbers| == i && forall j | 0 <= j < i :: numbers[j] == After(old(sequence.seqNum), j)
    {
      var number := sequence.Next();
      numbers := numbers + [number];
    }
  }

  // The stack the driver runs, with the counter it shares with the layers below.
  datatype LiveStack = LiveNone | LiveUnprovisioned(uuid: nat) | LiveProvisioned(core: Core, sequence: Sequence)

  class Driver {
    const storage: Storage
    var stack: LiveStack

    ghost function Counters(): set<object>
      reads this
    {
      if stack.LiveProvisioned? then {stack.sequence} else {}
    }

    ghost function View(): Node
      reads this, storage, storage.backingStore, Counters()
    {
      storage.Image().(stack :=
        match stack
        case LiveNone => NoStack
        case LiveUnprovisioned(uuid) => UnprovisionedStack(uuid)
        case LiveProvisioned(core, sequence) => ProvisionedStack(core, sequence.seqNum))
    }

    ghost function WritebackThreshold(): Threshold { storage.backingStore.sequenceThreshold }

    // Power-up on a given flash content.
    constructor Boot(flash: Option<Configuration>, sequenceThreshold: Threshold)
      ensures View() == BootStep(Node(flash, NoLoad, None, NoStack), sequenceThreshold)
      ensures WritebackThreshold() == sequenceThreshold
      ensures fresh(storage) && fresh(storage.backingStore)
    {
      var backingStore := new FlashBackingStore(flash, sequenceThreshold);
      storage := new Storage(backingStore);
      stack := LiveNone;
      new;
      storage.Init();
    }

    method SetUp(randomUuid: nat)
      modifies this, storage, storage.backingStore
      ensures View() == SetUpStep(old(View()), randomUuid, WritebackThreshold())
      ensures stack == old(stack) || fresh(Counters())
    {
      storage.LoadIfNeeded();
      if storage.config.None? {
        storage.Put(Unprovisioned(randomUuid));
      }
      match (stack, storage.config.value)
      case (LiveNone, Unprovisioned(uuid)) => stack := LiveUnprovisioned(uuid);
      case (LiveProvisioned(_, _), Unprovisioned(uuid)) => stack := LiveUnprovisioned(uuid);
      case (LiveNone, Provisioned(core, sequence, _)) =>
        var counter := new Sequence(sequence);
        stack := LiveProvisioned(core, counter);
      case (LiveUnprovisioned(_), Provisioned(core, sequence, _)) =>
        var counter := new Sequence(sequence);
        stack := LiveProvisioned(core, counter);
      case _ =>
    }

    method Work(input: Input) returns (numbers: seq<u32>)
      modifies this, Counters()
      ensures View() == WorkStep(old(View()), input)
      ensures numbers == NumbersOf(old(View()), input)
      ensures stack == old(stack) || fresh(Counters())
    {
      numbers := [];
      match (input, stack)
      case (Send(k), LiveProvisioned(_, sequence)) =>
        numbers := TakeNumbers(sequence, k);
      case (ProvisioningDone(core), LiveUnprovisioned(_)) =>
        var counter := new Sequence(FIRST_SEQUENCE);
        stack := LiveProvisioned(core, counter);
      case _ =>
    }

    method Save()
      modifies storage, storage.backingStore
      ensures View() == SaveStep(old(View()), WritebackThreshold())
    {
      match stack
      case LiveNone =>
      case LiveUnprovisioned(uuid) => storage.Put(Unprovisioned(uuid));
      case LiveProvisioned(core, sequence) =>
        storage.Put(Provisioned(core, sequence.seqNum, DEFAULT_FOUNDATION));
    }

    // One turn of the driver loop.
    method Turn(randomUuid: nat, input: Input) returns (numbers: seq<u32>)
      modifies this, storage, storage.backingStore, Counters()
      ensures View() == TurnStep(old(View()), randomUuid, input, WritebackThreshold())
      ensures numbers == NumbersOf(SetUpStep(old(View()), randomUuid, WritebackThreshold()), input)
    {
      SetUp(randomUuid);
      numbers := Work(input);
      Save();
    }
  }
}
