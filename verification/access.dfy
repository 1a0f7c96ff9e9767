/**
 * The device topology the benchmark is handed, and its policy for which
 * cross-device access grants a copy between two buffers needs
 * (AcquirePoolAcceses).
 */
module Access {
  import opened Hsa

  /** One entry of pool_list_: the pool handle and the index of the agent that owns it. */
  datatype PoolEntry = PoolEntry(pool: PoolId, agentIndex: nat)

  /**
   * The discovered topology: device type per agent (agent_list_), the pools
   * (pool_list_), the flattened agent-by-agent access matrix
   * (access_matrix_, row = source agent), the index of the host agent
   * (cpu_index_) and the host's default pool (sys_pool_).  An agent is
   * identified by its index.
   */
  datatype Topology = Topology(agents: seq<DeviceType>, pools: seq<PoolEntry>, access: seq<int>,
                               cpuIndex: nat, sysPool: PoolId)
  {
    ghost predicate Valid()
    {
      && cpuIndex < |agents|
      && |access| == |agents| * |agents|
      && forall i :: 0 <= i < |pools| ==> pools[i].agentIndex < |agents|
    }
  }

  /** The row-major position of (src, dst) lies inside an n-by-n matrix. */
  lemma {:induction false} MatrixIndexInRange(src: nat, dst: nat, n: nat)
    requires src < n && dst < n
    ensures src * n + dst < n * n
  {
    calc {
      src * n + dst;
    <  src * n + n;
    == (src + 1) * n;
    <= { MulMonotone(src + 1, n, n); } n * n;
    }
  }

  lemma MulMonotone(a: nat, b: nat, n: nat)
    requires a <= b
    ensures a * n <= b * n
  {
  }

  /** access_matrix_[src * agent_index_ + dst]. */
  function AccessEntry(t: Topology, src: nat, dst: nat): int
    requires t.Valid() && src < |t.agents| && dst < |t.agents|
  {
    var n := |t.agents|;
    MatrixIndexInRange(src, dst, n);
    t.access[src * n + dst]
  }

  /** A grant lets `agent` reference `buffer` (hsa_amd_agents_allow_access). */
  datatype Grant = Grant(agent: AgentId, buffer: Handle)

  /** The outcome of the access policy: grants to issue, or the "Inconsistent state" assertion. */
  datatype Decision = Allow(grants: seq<Grant>) | Inconsistent

  /**
   * The decision of AcquirePoolAcceses, in its order of rules: a matrix entry
   * of 2 grants both directions; otherwise a host source lets only the
   * destination agent reach the source buffer; otherwise a host destination
   * lets only the source agent reach the destination buffer; otherwise the
   * configuration is inconsistent.
   */
  function AccessPolicy(entry: int, srcType: DeviceType, dstType: DeviceType,
                        srcAgent: AgentId, src: Handle, dstAgent: AgentId, dst: Handle): (d: Decision)
    ensures d.Inconsistent? <==> entry != 2 && srcType != Cpu && dstType != Cpu
    ensures d.Allow? ==> (|d.grants| == 2 <==> entry == 2) && 1 <= |d.grants| <= 2
    ensures d.Allow? ==> forall g :: g in d.grants ==> g == Grant(srcAgent, dst) || g == Grant(dstAgent, src)
  {
    if entry == 2 then Allow([Grant(srcAgent, dst), Grant(dstAgent, src)])
    else if srcType == Cpu then Allow([Grant(dstAgent, src)])
    else if dstType == Cpu then Allow([Grant(srcAgent, dst)])
    else Inconsistent
  }

  /**
   * Access-grant minimality: between the host and an accelerator, without a
   * matrix entry of 2, exactly one grant is issued, and it lets the
   * accelerator reach the host's buffer.
   */
  lemma HostAcceleratorSingleGrant(entry: int, srcType: DeviceType, dstType: DeviceType,
                                   srcAgent: AgentId, src: Handle, dstAgent: AgentId, dst: Handle)
    requires entry != 2
    requires (srcType == Cpu) != (dstType == Cpu)
    ensures var d := AccessPolicy(entry, srcType, dstType, srcAgent, src, dstAgent, dst);
      && d.Allow? && |d.grants| == 1
      && (srcType == Cpu ==> d.grants[0] == Grant(dstAgent, src))
      && (dstType == Cpu ==> d.grants[0] == Grant(srcAgent, dst))
  {
  }

  /** A matrix entry of 2 grants both directions whatever the device types. */
  lemma BothDirectionsOnEntryTwo(srcType: DeviceType, dstType: DeviceType,
                                 srcAgent: AgentId, src: Handle, dstAgent: AgentId, dst: Handle)
    ensures var d := AccessPolicy(2, srcType, dstType, srcAgent, src, dstAgent, dst);
      && d.Allow? && Grant(srcAgent, dst) in d.grants && Grant(dstAgent, src) in d.grants
  {
  }

  /** The runtime calls that issue a list of grants, in order. */
  function GrantEvents(gs: seq<Grant>): (evs: seq<Event>)
    ensures |evs| == |gs|
    ensures forall i :: 0 <= i < |gs| ==> evs[i] == Event.AllowAccess(gs[i].agent, gs[i].buffer)
  {
    if gs == [] then [] else [Event.AllowAccess(gs[0].agent, gs[0].buffer)] + GrantEvents(gs[1..])
  }
}
