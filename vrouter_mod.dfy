// Arithmetic of the Linux host-OS glue (linux/vrouter_mod.c): rounding of
// page allocations, the header that allocation checks put before each block,
// the mapping of a packet hash to an outer UDP source port, the validation of
// the perfq CPU numbers, and the validation and path split of a huge-page
// configuration request.
//
// PAGE_SIZE is the x86-64 value, 4096.  The other constants
// (VR_MUDP_PORT_RANGE_START/END, VR_MEM_1G/2M, VR_MAX_HUGE_PAGE_CFG and
// sizeof(struct vr_malloc_md)) are not in the files of this model and are
// parameters.

module VrouterMod {
  import opened Base

  /** EINVAL, the Linux errno. */
  const EINVAL: int := 22

  const U32_MOD: nat := 0x1_0000_0000

  /** PAGE_SIZE - 1, the mask of the offset within a page. */
  const PAGE_MASK: bv32 := 0xFFF

  // ---------------------------------------------------------------------------
  // Page rounding (lh_page_alloc, lh_page_free)
  // ---------------------------------------------------------------------------

  /**
   * The size lh_page_alloc and lh_page_free hand to get_order: an unaligned
   * size is raised to the next multiple of PAGE_SIZE in unsigned 32-bit
   * arithmetic, so a size within a page of 2^32 wraps to 0.
   */
  method RoundToPage(size: bv32) returns (s: bv32)
    ensures s & PAGE_MASK == 0
    ensures size & PAGE_MASK == 0 ==> s == size
    ensures size & PAGE_MASK != 0 && size < 0xFFFF_F000 ==> size < s && s - size < 0x1000
    ensures size > 0xFFFF_F000 ==> s == 0
  {
    s := size;
    if s & PAGE_MASK != 0 {
      s := s + 0x1000;
      s := s & !PAGE_MASK;
    }
  }

  // ---------------------------------------------------------------------------
  // Allocation header (lh_malloc, lh_zalloc, lh_free)
  // ---------------------------------------------------------------------------

  /**
   * The size lh_malloc and lh_zalloc ask the kernel for: none for a size of
   * 0, and with allocation checks on the size plus the header, in unsigned
   * 32-bit arithmetic.
   */
  function Request(size: u32, checks: bool, header: nat): (r: Option<u32>)
    ensures size == 0 <==> r.None?
    ensures r.Some? && !checks ==> r.value == size
    ensures r.Some? && checks && size + header < U32_MOD ==> r.value == size + header
    ensures r.Some? && checks ==> r.value == (size + header) % U32_MOD
    ensures r.Some? && checks && header < U32_MOD && size + header >= U32_MOD ==>
              r.value == size + header - U32_MOD && r.value < size
  {
    if size == 0 then None
    else if checks then Some((size + header) % U32_MOD)
    else Some(size)
  }

  /**
   * lh_malloc and lh_zalloc: `alloc` is kmalloc or kzalloc, the address of a
   * block of the requested size or none.  With checks on, the caller gets
   * the address just past the header.
   */
  function Malloc(size: u32, checks: bool, header: nat, alloc: u32 -> Option<nat>): (r: Option<nat>)
    ensures size == 0 ==> r.None?
    ensures size > 0 ==> (r.None? <==> alloc(Request(size, checks, header).value).None?)
  {
    match Request(size, checks, header)
    case None => None
    case Some(n) =>
      match alloc(n)
      case None => None
      case Some(base) => Some(if checks then base + header else base)
  }

  /** lh_free: the address handed to kfree, none for NULL; with checks on, the header before the block is freed with it. */
  function Freed(mem: Option<nat>, checks: bool, header: nat): (r: Option<nat>)
    requires mem.Some? && checks ==> mem.value >= header
    ensures mem.None? <==> r.None?
  {
    match mem
    case None => None
    case Some(p) => Some(if checks then p - header else p)
  }

  /** Freeing what lh_malloc returned frees the very block the kernel allocated, whether or not checks are on. */
  lemma FreeUndoesMalloc(size: u32, checks: bool, header: nat, alloc: u32 -> Option<nat>)
    ensures var mem := Malloc(size, checks, header, alloc);
            (mem.Some? && checks ==> mem.value >= header) &&
            Freed(mem, checks, header) == if size == 0 then None else alloc(Request(size, checks, header).value)
  {
  }

  // ---------------------------------------------------------------------------
  // Outer UDP source port (lh_get_udp_src_port)
  // ---------------------------------------------------------------------------

  /** The port range lh_get_udp_src_port maps hashes into: VR_MUDP_PORT_RANGE_START and VR_MUDP_PORT_RANGE_END. */
  datatype PortRange = PortRange(start: u16, end: u16)

  /**
   * The hash-to-port step: the 32-bit hash scaled by the width of the range
   * and shifted down by 32, cast to 16 bits, set to 0 if it exceeds the width
   * ("shouldn't happen"), and offset by the start, truncated to the __u16
   * return type.
   */
  function HashPort(hash: u32, range: PortRange): (r: u16)
  {
    var width := (range.end - range.start) % U32_MOD;
    var port := (hash * width / U32_MOD) % 0x1_0000;
    var port' := if port > width then 0 else port;
    (port' + range.start) % 0x1_0000
  }

  /**
   * lh_get_udp_src_port once the packet has been examined: `failed` is any of
   * its error exits (a pull that fails, a tail mismatch, an L2 frame shorter
   * than an Ethernet header), `isIp` whether the packet is IPv4 or IPv6,
   * `flowPort` the fe_udp_src_port of the flow entry at fmd_flow_index when
   * there is one, and `hash` the jhash or vr_hash of the inner headers.
   */
  function UdpSrcPort(failed: bool, isIp: bool, flowPort: Option<u16>, hash: u32, range: PortRange): (r: u16)
    ensures failed ==> r == 0
    ensures !failed && isIp && flowPort.Some? ==> r == flowPort.value
    ensures !failed && (!isIp || flowPort.None?) ==> r == HashPort(hash, range)
  {
    if failed then 0
    else if isIp && flowPort.Some? then flowPort.value
    else HashPort(hash, range)
  }

  lemma MulLe(a: nat, b: nat, c: nat)
    requires a <= b
    ensures a * c <= b * c
  {
  }

  /** A hash below m, scaled by w and divided by m, is below w. */
  lemma ScaledBelow(hash: nat, w: nat, m: nat)
    requires hash < m && 0 < w
    ensures hash * w / m < w
  {
    var p := hash * w;
    MulLe(hash, m - 1, w);
    assert (m - 1) * w == m * w - w;
    var q := p / m;
    assert p == q * m + p % m;
    if q >= w {
      MulLe(w, q, m);
      assert false;
    }
  }

  /**
   * With VR_MUDP_PORT_RANGE_START <= VR_MUDP_PORT_RANGE_END every hash lands
   * in the range, and the guard against a port past the width never fires;
   * a start above 0 keeps hashed ports apart from the error value 0.
   */
  lemma {:induction false} HashPortInRange(hash: u32, range: PortRange)
    requires range.start <= range.end
    ensures range.start <= HashPort(hash, range) <= range.end
    ensures range.start > 0 ==> HashPort(hash, range) != 0
    ensures HashPort(hash, range) == range.start + hash * (range.end - range.start) / U32_MOD
  {
    var w := range.end - range.start;
    var q := hash * w / U32_MOD;
    if w > 0 {
      ScaledBelow(hash, w, U32_MOD);
    } else {
      assert hash * w == 0;
    }
    assert q <= w;
    assert (range.end - range.start) % U32_MOD == w;
    assert q % 0x1_0000 == q;
    assert (q + range.start) % 0x1_0000 == q + range.start;
  }

  // ---------------------------------------------------------------------------
  // perfq CPU numbers (vr_perfq_check)
  // ---------------------------------------------------------------------------

  /** A perfq CPU number is valid when it names one of the `cpus` CPUs. */
  predicate ValidCpu(q: int, cpus: u32)
  {
    0 <= q < cpus
  }

  /** vr_perfq_check: 1 when any of vr_perfq1..3 is negative or not below the CPU count, else 0. */
  function PerfqCheck(perfq1: int, perfq2: int, perfq3: int, cpus: u32): (r: int)
    ensures r == 0 || r == 1
    ensures r == 0 <==> ValidCpu(perfq1, cpus) && ValidCpu(perfq2, cpus) && ValidCpu(perfq3, cpus)
  {
    var invalid := perfq1 < 0 || perfq1 >= cpus ||
                   perfq2 < 0 || perfq2 >= cpus ||
                   perfq3 < 0 || perfq3 >= cpus;
    if invalid then 1 else 0
  }

  // ---------------------------------------------------------------------------
  // Huge-page configuration (lh_huge_page_config)
  // ---------------------------------------------------------------------------

  /** VR_MAX_HUGE_PAGE_CFG and the two accepted page sizes VR_MEM_1G and VR_MEM_2M. */
  datatype HugeLimits = HugeLimits(maxCfg: nat, mem1G: int, mem2M: int)

  /**
   * The request as lh_huge_page_config receives it: each array with its
   * count (None for NULL), the concatenated file-path buffer and
   * the size of each path in it.
   */
  datatype HugeRequest = HugeRequest(
    hpages: Option<seq<u64>>,
    hpageSize: Option<seq<int>>,
    hpageMemSz: Option<seq<int>>,
    filePaths: Option<seq<byte>>,
    filePathSz: Option<seq<u32>>)

  /** The request is refused with -EINVAL. */
  predicate Refused(q: HugeRequest, lim: HugeLimits)
  {
    q.hpages.None? || q.hpageSize.None? || q.hpageMemSz.None? || q.filePaths.None? || q.filePathSz.None? ||
    |q.hpages.value| == 0 || |q.hpageSize.value| == 0 || |q.hpageMemSz.value| == 0 ||
    |q.hpages.value| != |q.hpageSize.value| || |q.hpages.value| != |q.hpageMemSz.value| ||
    |q.hpages.value| > lim.maxCfg ||
    (exists i | 0 <= i < |q.hpages.value| :: q.hpages.value[i] == 0) ||
    (exists i | 0 <= i < |q.hpages.value| && i < |q.hpageSize.value| ::
       q.hpageSize.value[i] != lim.mem1G && q.hpageSize.value[i] != lim.mem2M)
  }

  /** The sum of the sizes. */
  function Total(sz: seq<u32>): nat
  {
    if |sz| == 0 then 0 else Total(sz[..|sz| - 1]) + sz[|sz| - 1]
  }

  lemma {:induction false} TotalPrefix(sz: seq<u32>, n: nat)
    requires n <= |sz|
    ensures Total(sz[..n]) <= Total(sz)
    decreases |sz|
  {
    if n < |sz| {
      assert sz[..|sz| - 1][..n] == sz[..n];
      TotalPrefix(sz[..|sz| - 1], n);
    } else {
      assert sz[..n] == sz;
    }
  }

  lemma TotalStep(sz: seq<u32>, i: nat)
    requires i < |sz|
    ensures Total(sz[..i + 1]) == Total(sz[..i]) + sz[i]
  {
    assert sz[..i + 1][..i] == sz[..i];
  }

  /** The paths of the request: path i is the `sz[i]` bytes that start at the sum of the sizes before it. */
  function Split(buf: seq<byte>, sz: seq<u32>): (r: seq<seq<byte>>)
    requires Total(sz) <= |buf|
    ensures |r| == |sz|
  {
    seq(|sz|, i requires 0 <= i < |sz| =>
      TotalStep(sz, i);
      TotalPrefix(sz, i + 1);
      buf[Total(sz[..i]) .. Total(sz[..i]) + sz[i]])
  }

  function Flatten(ss: seq<seq<byte>>): seq<byte>
  {
    if |ss| == 0 then [] else Flatten(ss[..|ss| - 1]) + ss[|ss| - 1]
  }

  /** The first n paths laid end to end are the first bytes of the buffer, as many as their sizes add up to. */
  lemma {:induction false} SplitPrefix(buf: seq<byte>, sz: seq<u32>, n: nat)
    requires Total(sz) <= |buf| && n <= |sz|
    ensures Total(sz[..n]) <= Total(sz) && Flatten(Split(buf, sz)[..n]) == buf[..Total(sz[..n])]
  {
    TotalPrefix(sz, n);
    if n > 0 {
      SplitPrefix(buf, sz, n - 1);
      TotalStep(sz, n - 1);
      assert Split(buf, sz)[..n][..n - 1] == Split(buf, sz)[..n - 1];
    }
  }

  /** The paths laid end to end give back the buffer, up to the total of their sizes. */
  lemma SplitConcat(buf: seq<byte>, sz: seq<u32>)
    requires Total(sz) <= |buf|
    ensures Flatten(Split(buf, sz)) == buf[..Total(sz)]
  {
    SplitPrefix(buf, sz, |sz|);
    assert Split(buf, sz)[..|sz|] == Split(buf, sz);
    assert sz[..|sz|] == sz;
  }

  /**
   * lh_huge_page_config: `configure` is vr_huge_pages_config, given the
   * addresses, page sizes, memory sizes and the split paths.  The result is
   * -EINVAL for a refused request and otherwise what `configure` returns; on
   * success `paths` is the split it was given.
   */
  method HugePageConfig(q: HugeRequest, lim: HugeLimits,
                        configure: (seq<u64>, seq<int>, seq<int>, seq<seq<byte>>) -> int)
    returns (ret: int, paths: seq<seq<byte>>)
    requires q.hpages.Some? && q.filePathSz.Some? ==> |q.filePathSz.value| >= |q.hpages.value|
    requires q.hpages.Some? && q.filePathSz.Some? && q.filePaths.Some? ==>
               Total(q.filePathSz.value[..|q.hpages.value|]) <= |q.filePaths.value|
    ensures Refused(q, lim) ==> ret == -EINVAL && paths == []
    ensures !Refused(q, lim) ==>
              var sz := q.filePathSz.value[..|q.hpages.value|];
              paths == Split(q.filePaths.value, sz) &&
              ret == configure(q.hpages.value, q.hpageSize.value, q.hpageMemSz.value, paths)
  {
    paths := [];
    if q.hpages.None? || q.hpageSize.None? || q.hpageMemSz.None? || q.filePaths.None? || q.filePathSz.None? ||
       |q.hpages.value| == 0 || |q.hpageSize.value| == 0 || |q.hpageMemSz.value| == 0 {
      return -EINVAL, paths;
    }
    var hpages, hpageSize := q.hpages.value, q.hpageSize.value;
    var n := |hpages|;
    if n != |hpageSize| || n != |q.hpageMemSz.value| || n > lim.maxCfg {
      return -EINVAL, paths;
    }
    var i := 0;
    while i < n
      invariant i <= n
      invariant forall k | 0 <= k < i :: hpages[k] != 0 && (hpageSize[k] == lim.mem1G || hpageSize[k] == lim.mem2M)
    {
      if hpages[i] == 0 {
        return -EINVAL, paths;
      }
      if hpageSize[i] != lim.mem1G && hpageSize[i] != lim.mem2M {
        return -EINVAL, paths;
      }
      i := i + 1;
    }
    var buf, sz := q.filePaths.value, q.filePathSz.value[..n];
    var j: nat := 0;
    i := 0;
    while i < n
      invariant i <= n && j == Total(sz[..i]) && |paths| == i
      invariant forall k | 0 <= k < i :: paths[k] == Split(buf, sz)[k]
    {
      TotalStep(sz, i);
      TotalPrefix(sz, i + 1);
      paths := paths + [buf[j .. j + sz[i]]];
      j := j + sz[i];
      i := i + 1;
    }
    ret := configure(hpages, hpageSize, q.hpageMemSz.value, paths);
  }
}
