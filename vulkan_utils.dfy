/**
 * The two pieces of decision logic in src/Vulkan/Utils.cpp (and the verbatim
 * copy of findMemoryType in src/Vulkan/Buffer.cpp):
 *  - choosing a device memory type for an allocation (Vulkan 1.0, chapter
 *    "Memory Allocation", VkPhysicalDeviceMemoryProperties), and
 *  - choosing access masks and pipeline stages for an image layout transition
 *    (Vulkan 1.0, chapter "Synchronization and Cache Control", image memory
 *    barriers).
 * The device query and the command recording are foreign calls: the memory-type
 * table is a parameter, and the recorded barrier command is a result.
 */
module VulkanUtils {
  import opened Wrappers

  // ---------------------------------------------------------------------------
  // findMemoryType
  // ---------------------------------------------------------------------------

  /** UINT32_MAX, the "no suitable memory type" answer. */
  const NoMemoryType: nat := 0xFFFF_FFFF

  /** VK_MAX_MEMORY_TYPES: a device reports at most 32 memory types. */
  const MaxMemoryTypes: nat := 32

  /** Bit `i` of a 32-bit mask, as `typeFilter & (1 << i)`. */
  predicate BitSet(mask: bv32, i: nat)
    requires i < 32
  {
    mask & (1 << i) != 0
  }

  /**
   * Memory type `i` may back the allocation: the resource allows it (its bit in
   * `typeFilter`) and its property flags include every requested property.
   */
  predicate Suitable(typeFilter: bv32, properties: bv32, typeFlags: seq<bv32>, i: nat)
    requires i < |typeFlags| <= MaxMemoryTypes
  {
    BitSet(typeFilter, i) && typeFlags[i] & properties == properties
  }

  /** The first suitable memory type at or after `from`, if any. */
  function FirstSuitable(typeFilter: bv32, properties: bv32, typeFlags: seq<bv32>, from: nat): Option<nat>
    requires from <= |typeFlags| <= MaxMemoryTypes
    decreases |typeFlags| - from
  {
    if from == |typeFlags| then None
    else if Suitable(typeFilter, properties, typeFlags, from) then Some(from)
    else FirstSuitable(typeFilter, properties, typeFlags, from + 1)
  }

  /** The index findMemoryType returns for a search result. */
  function AsIndex(r: Option<nat>): nat
  {
    match r
    case Some(i) => i
    case None => NoMemoryType
  }

  /**
   * FirstSuitable finds the least suitable index at or after `from`, and finds
   * nothing exactly when no index there is suitable.
   */
  lemma {:induction false} FirstSuitableIsLeast(typeFilter: bv32, properties: bv32, typeFlags: seq<bv32>, from: nat)
    requires from <= |typeFlags| <= MaxMemoryTypes
    ensures match FirstSuitable(typeFilter, properties, typeFlags, from)
      case Some(i) =>
        from <= i < |typeFlags| && Suitable(typeFilter, properties, typeFlags, i)
        && forall j :: from <= j < i ==> !Suitable(typeFilter, properties, typeFlags, j)
      case None =>
        forall j :: from <= j < |typeFlags| ==> !Suitable(typeFilter, properties, typeFlags, j)
    decreases |typeFlags| - from
  {
    if from < |typeFlags| && !Suitable(typeFilter, properties, typeFlags, from) {
      FirstSuitableIsLeast(typeFilter, properties, typeFlags, from + 1);
    }
  }

  /**
   * findMemoryType: the smallest index below memoryTypeCount whose filter bit is
   * set and whose flags include all requested properties, or UINT32_MAX.
   */
  method FindMemoryType(typeFilter: bv32, properties: bv32, typeFlags: seq<bv32>) returns (r: nat)
    requires |typeFlags| <= MaxMemoryTypes
    ensures r == AsIndex(FirstSuitable(typeFilter, properties, typeFlags, 0))
    ensures r == NoMemoryType <==> forall j :: 0 <= j < |typeFlags| ==> !Suitable(typeFilter, properties, typeFlags, j)
    ensures r != NoMemoryType ==>
      r < |typeFlags| && BitSet(typeFilter, r) && typeFlags[r] & properties == properties
      && forall j :: 0 <= j < r ==> !Suitable(typeFilter, properties, typeFlags, j)
  {
    FirstSuitableIsLeast(typeFilter, properties, typeFlags, 0);
    var i := 0;
    while i < |typeFlags|
      invariant 0 <= i <= |typeFlags|
      invariant FirstSuitable(typeFilter, properties, typeFlags, 0) == FirstSuitable(typeFilter, properties, typeFlags, i)
    {
      if typeFilter & (1 << i) != 0 && typeFlags[i] & properties == properties {
        return i;
      }
      i := i + 1;
    }
    return NoMemoryType;
  }

  /** The lowest set bit of `mask` at or after `from` and below `count`, if any. */
  function LowestSetBit(mask: bv32, count: nat, from: nat): Option<nat>
    requires from <= count <= 32
    decreases count - from
  {
    if from == count then None
    else if BitSet(mask, from) then Some(from)
    else LowestSetBit(mask, count, from + 1)
  }

  /**
   * With no required properties every memory type's flags qualify, so the
   * search returns the lowest set bit of the type filter below memoryTypeCount.
   */
  lemma {:induction false} NoPropertiesPicksLowestBit(typeFilter: bv32, typeFlags: seq<bv32>, from: nat)
    requires from <= |typeFlags| <= MaxMemoryTypes
    ensures FirstSuitable(typeFilter, 0, typeFlags, from) == LowestSetBit(typeFilter, |typeFlags|, from)
    decreases |typeFlags| - from
  {
    if from < |typeFlags| {
      assert typeFlags[from] & 0 == 0;
      NoPropertiesPicksLowestBit(typeFilter, typeFlags, from + 1);
    }
  }

  /**
   * A memory type whose bit is clear in the filter is never chosen, and any
   * chosen index is below memoryTypeCount.
   */
  lemma FilteredOutNeverChosen(typeFilter: bv32, properties: bv32, typeFlags: seq<bv32>, i: nat)
    requires i < |typeFlags| <= MaxMemoryTypes
    requires !BitSet(typeFilter, i)
    ensures AsIndex(FirstSuitable(typeFilter, properties, typeFlags, 0)) != i
    ensures AsIndex(FirstSuitable(typeFilter, properties, typeFlags, 0)) < |typeFlags|
      || AsIndex(FirstSuitable(typeFilter, properties, typeFlags, 0)) == NoMemoryType
  {
    FirstSuitableIsLeast(typeFilter, properties, typeFlags, 0);
  }

  // ---------------------------------------------------------------------------
  // changeLayout
  // ---------------------------------------------------------------------------

  /** VkImageLayout codes (the enum's numeric values). */
  type ImageLayout = nat
  const Undefined: ImageLayout := 0
  const General: ImageLayout := 1
  const ColorAttachmentOptimal: ImageLayout := 2
  const TransferDstOptimal: ImageLayout := 7
  const PresentSrcKhr: ImageLayout := 1000001002

  /** VkAccessFlagBits used by the table. */
  const AccessNone: bv32 := 0
  const ShaderRead: bv32 := 0x20
  const ShaderWrite: bv32 := 0x40
  const ColorAttachmentWrite: bv32 := 0x100
  const TransferWrite: bv32 := 0x1000
  const MemoryRead: bv32 := 0x8000

  /** VkPipelineStageFlagBits used by the table. */
  const TopOfPipe: bv32 := 0x1
  const ColorAttachmentOutput: bv32 := 0x400
  const ComputeShader: bv32 := 0x800
  const TransferStage: bv32 := 0x1000
  const BottomOfPipe: bv32 := 0x2000

  /** VK_QUEUE_FAMILY_IGNORED and VK_IMAGE_ASPECT_COLOR_BIT. */
  const QueueFamilyIgnored: bv32 := 0xFFFF_FFFF
  const AspectColor: bv32 := 0x1

  /** The fields of VkImageMemoryBarrier that changeLayout fills in. */
  datatype ImageBarrier = ImageBarrier(
    oldLayout: ImageLayout, newLayout: ImageLayout,
    srcAccessMask: bv32, dstAccessMask: bv32,
    srcQueueFamilyIndex: bv32, dstQueueFamilyIndex: bv32,
    image: nat,
    aspectMask: bv32, baseMipLevel: nat, levelCount: nat, baseArrayLayer: nat, layerCount: nat)

  /** One vkCmdPipelineBarrier call with a single image barrier. */
  datatype PipelineBarrier = PipelineBarrier(srcStage: bv32, dstStage: bv32, barrier: ImageBarrier)

  /** What changeLayout returns and what it records into the command buffer. */
  datatype LayoutChange = LayoutChange(ok: bool, recorded: Option<PipelineBarrier>)

  /** A row of the transition table: masks and stages for one (old, new) pair. */
  datatype Transition = Transition(
    from: ImageLayout, to: ImageLayout,
    srcAccess: bv32, dstAccess: bv32, srcStage: bv32, dstStage: bv32)

  /** The eight transitions changeLayout supports, in the order it tests them. */
  const TransitionTable: seq<Transition> := [
    Transition(ColorAttachmentOptimal, General, ColorAttachmentWrite, ShaderRead | ShaderWrite, ColorAttachmentOutput, ComputeShader),
    Transition(General, ColorAttachmentOptimal, ShaderRead | ShaderWrite, ColorAttachmentWrite, ComputeShader, ColorAttachmentOutput),
    Transition(Undefined, General, AccessNone, ShaderRead | ShaderWrite, TopOfPipe, ComputeShader),
    Transition(General, Undefined, ShaderRead | ShaderWrite, AccessNone, ComputeShader, BottomOfPipe),
    Transition(General, PresentSrcKhr, ShaderRead | ShaderWrite, MemoryRead, ComputeShader, BottomOfPipe),
    Transition(PresentSrcKhr, General, MemoryRead, ShaderRead | ShaderWrite, BottomOfPipe, ComputeShader),
    Transition(Undefined, TransferDstOptimal, AccessNone, TransferWrite, TopOfPipe, TransferStage),
    Transition(TransferDstOptimal, General, TransferWrite, ShaderRead | ShaderWrite, TransferStage, ComputeShader)
  ]

  /** The table row for (oldLayout, newLayout), if there is one. */
  function Lookup(table: seq<Transition>, oldLayout: ImageLayout, newLayout: ImageLayout): Option<Transition>
  {
    if table == [] then None
    else if table[0].from == oldLayout && table[0].to == newLayout then Some(table[0])
    else Lookup(table[1..], oldLayout, newLayout)
  }

  /** (oldLayout, newLayout) is one of the supported transitions. */
  predicate Supported(oldLayout: ImageLayout, newLayout: ImageLayout)
  {
    exists k :: 0 <= k < |TransitionTable| && TransitionTable[k].from == oldLayout && TransitionTable[k].to == newLayout
  }

  /** The barrier changeLayout records for a transition of `image`. */
  function BarrierFor(t: Transition, image: nat): PipelineBarrier
  {
    PipelineBarrier(t.srcStage, t.dstStage,
      ImageBarrier(t.from, t.to, t.srcAccess, t.dstAccess, QueueFamilyIgnored, QueueFamilyIgnored,
                   image, AspectColor, 0, 1, 0, 1))
  }

  /**
   * changeLayout: nothing to do when the layouts agree; one barrier for each of
   * the eight supported transitions; otherwise a warning and `false`.
   */
  function ChangeLayout(oldLayout: ImageLayout, newLayout: ImageLayout, image: nat): (r: LayoutChange)
    ensures r.ok <==> oldLayout == newLayout || Supported(oldLayout, newLayout)
    ensures r.recorded.Some? <==> oldLayout != newLayout && Supported(oldLayout, newLayout)
    ensures r.recorded.Some? ==>
      var b := r.recorded.value.barrier;
      b.oldLayout == oldLayout && b.newLayout == newLayout && b.image == image
      && b.srcQueueFamilyIndex == QueueFamilyIgnored && b.dstQueueFamilyIndex == QueueFamilyIgnored
      && b.aspectMask == AspectColor && b.levelCount == 1 && b.layerCount == 1
  {
    if oldLayout == newLayout then
      LayoutChange(true, None)
    else if oldLayout == ColorAttachmentOptimal && newLayout == General then
      LayoutChange(true, Some(BarrierFor(TransitionTable[0], image)))
    else if oldLayout == General && newLayout == ColorAttachmentOptimal then
      LayoutChange(true, Some(BarrierFor(TransitionTable[1], image)))
    else if oldLayout == Undefined && newLayout == General then
      LayoutChange(true, Some(BarrierFor(TransitionTable[2], image)))
    else if oldLayout == General && newLayout == Undefined then
      LayoutChange(true, Some(BarrierFor(TransitionTable[3], image)))
    else if oldLayout == General && newLayout == PresentSrcKhr then
      LayoutChange(true, Some(BarrierFor(TransitionTable[4], image)))
    else if oldLayout == PresentSrcKhr && newLayout == General then
      LayoutChange(true, Some(BarrierFor(TransitionTable[5], image)))
    else if oldLayout == Undefined && newLayout == TransferDstOptimal then
      LayoutChange(true, Some(BarrierFor(TransitionTable[6], image)))
    else if oldLayout == TransferDstOptimal && newLayout == General then
      LayoutChange(true, Some(BarrierFor(TransitionTable[7], image)))
    else
      LayoutChange(false, None)
  }

  /** Lookup returns the first row whose key matches, and None when none does. */
  lemma {:induction false} LookupFindsFirst(table: seq<Transition>, oldLayout: ImageLayout, newLayout: ImageLayout, k: nat)
    requires k <= |table|
    requires forall j :: 0 <= j < k ==> !(table[j].from == oldLayout && table[j].to == newLayout)
    ensures k < |table| && table[k].from == oldLayout && table[k].to == newLayout ==>
      Lookup(table, oldLayout, newLayout) == Some(table[k])
    ensures k == |table| ==> Lookup(table, oldLayout, newLayout) == None
  {
    if k > 0 {
      LookupFindsFirst(table[1..], oldLayout, newLayout, k - 1);
    }
  }

  /**
   * The if/else chain agrees with a plain lookup in the transition table: for a
   * supported pair the recorded masks and stages are exactly the table row's.
   */
  lemma ChangeLayoutIsTableLookup(oldLayout: ImageLayout, newLayout: ImageLayout, image: nat)
    ensures ChangeLayout(oldLayout, newLayout, image) ==
      if oldLayout == newLayout then LayoutChange(true, None)
      else match Lookup(TransitionTable, oldLayout, newLayout)
        case Some(t) => LayoutChange(true, Some(BarrierFor(t, image)))
        case None => LayoutChange(false, None)
  {
    var t := TransitionTable;
    var k :| 0 <= k <= |t| && (k < |t| ==> t[k].from == oldLayout && t[k].to == newLayout)
      && forall j :: 0 <= j < k ==> !(t[j].from == oldLayout && t[j].to == newLayout);
    LookupFindsFirst(t, oldLayout, newLayout, k);
  }

  /**
   * A barrier that leaves UNDEFINED waits for no earlier access (the contents
   * are discarded) and starts at the top of the pipe; every other recorded
   * barrier makes some earlier access available.
   */
  lemma UndefinedSourceWaitsForNothing(oldLayout: ImageLayout, newLayout: ImageLayout, image: nat)
    requires ChangeLayout(oldLayout, newLayout, image).recorded.Some?
    ensures var p := ChangeLayout(oldLayout, newLayout, image).recorded.value;
      (p.barrier.srcAccessMask == AccessNone <==> oldLayout == Undefined)
      && (oldLayout == Undefined <==> p.srcStage == TopOfPipe)
  {
  }

  /**
   * Between GENERAL and the colour-attachment or present layouts, the way back
   * mirrors the way there: source and destination masks and stages swap.
   */
  lemma ReverseTransitionMirrors(a: ImageLayout, b: ImageLayout, image: nat)
    requires a != Undefined && b != Undefined
    requires Supported(a, b) && Supported(b, a)
    ensures var there := ChangeLayout(a, b, image).recorded.value;
      var back := ChangeLayout(b, a, image).recorded.value;
      there.srcStage == back.dstStage && there.dstStage == back.srcStage
      && there.barrier.srcAccessMask == back.barrier.dstAccessMask
      && there.barrier.dstAccessMask == back.barrier.srcAccessMask
  {
  }
}
