# AD102 bus interface: eRoT grant handshake and XVE register-map set-up

This Dafny project models the two pieces of logic in the AD102 (Ada) kernel
bus-interface file `kernel_bif_ad102.c` of the NVIDIA open GPU kernel modules.

- **eRoT grant handshake** (`ErotGrant.dfy`). Before the OS runs, the driver
  asks the external root of trust (eRoT) to hand over the EEPROM.
  `kbifPreOsGlobalErotGrantRequest_AD102` reads the register
  `NV_PBUS_SW_GLOBAL_EROT_GRANT`:
  - If its VALID field is NO, there is no eRoT, and the call succeeds.
  - Otherwise, if the grant predicate `_kbifPreOsCheckErotGrantAllowed_AD102`
    sees ALLOW=YES, the call succeeds. The predicate reads the register
    again.
  - Otherwise it writes back the first value read, with the REQUEST field
    set. It then polls the predicate with `gpuTimeoutCondWait` until the
    grant shows or the deadline passes.

  The register is a `bv32` field of the class `Gpu`. Every read may return
  any value, because the eRoT acts on its own. Ghost logs keep every value
  read and written. `GrantRequestOutcome` is the reference outcome
  (status and writes) as a function of the values read. The method is proved
  against it, and the lemmas say what the outcome is in each case.
- **XVE register-map set-up** (`XveRegMap.dfy`). `kbifInitXveRegMap_AD102`
  fills the per-PCIe-function entries of `KernelBif.xveRegmapRef`:
  - Function 0 gets the chip's valid/writable register tables, their
    element counts and the boot-time config-space cache. It also gets an
    MSI-X vector-control shadow buffer, which is allocated only if the
    entry has none yet.
  - Function 1 is delegated to the GM107 initialiser.
  - Any other function number is rejected.

  `KernelBif` is a class holding the array of entries, which are struct
  values. The allocator `portMemAllocNonPaged` and the GM107 initialiser are
  methods that may fail or return any status, and they log their calls in
  ghost state.
- `NvTypes.dfy` holds the status codes and `Option`.

The two pieces do not depend on each other.

The code does not zero the MSI-X shadow buffer, and when its allocation
fails the fields set at lines 109-114 stay installed; the model does the
same.

## Model

| member | source | states |
|---|---|---|
| ErotGrant.ErotAbsent | src/nvidia/src/kernel/gpu/bif/arch/ada/kernel_bif_ad102.c:58-59 | Definition of the VALID=NO field test on one read value (masked VALID bits equal VALID_NO); RequestKeepsValidVerdict and NoErotMeansNoWrite state its role |
| ErotGrant.GrantAllowed | src/nvidia/src/kernel/gpu/bif/arch/ada/kernel_bif_ad102.c:143-145 | Definition of the ALLOW=YES field test on one read value; GrantAllowedReadsOnlyAllowField states that it depends on the ALLOW field only |
| ErotGrant.WithRequestSet | src/nvidia/src/kernel/gpu/bif/arch/ada/kernel_bif_ad102.c:70 | Definition of FLD_SET_DRF REQUEST=SET as (reg & ~mask) OR value; the WithRequestSet* lemmas state that it sets REQUEST and keeps every other bit |
| ErotGrant.GrantAllowedReadsOnlyAllowField | src/nvidia/src/kernel/gpu/bif/arch/ada/kernel_bif_ad102.c:143-145 | The poll predicate's verdict depends only on the ALLOW field: two values that agree there get the same verdict |
| ErotGrant.WithRequestSetPutsSet | src/nvidia/src/kernel/gpu/bif/arch/ada/kernel_bif_ad102.c:70 | The value built for the write has REQUEST=SET |
| ErotGrant.WithRequestSetKeepsOtherBits | src/nvidia/src/kernel/gpu/bif/arch/ada/kernel_bif_ad102.c:70 | Every bit outside the REQUEST field is the bit that was read |
| ErotGrant.WithRequestSetKeepsValid | src/nvidia/src/kernel/gpu/bif/arch/ada/kernel_bif_ad102.c:70 | The written value carries the VALID field that was read |
| ErotGrant.WithRequestSetKeepsAllow | src/nvidia/src/kernel/gpu/bif/arch/ada/kernel_bif_ad102.c:70 | The written value carries the ALLOW field that was read |
| ErotGrant.RequestKeepsValidVerdict | src/nvidia/src/kernel/gpu/bif/arch/ada/kernel_bif_ad102.c:70 | Setting REQUEST does not change whether the value says "no eRoT" |
| ErotGrant.RequestKeepsAllowVerdict | src/nvidia/src/kernel/gpu/bif/arch/ada/kernel_bif_ad102.c:70 | Setting REQUEST does not change whether the value shows the grant |
| ErotGrant.PollStatus | src/nvidia/src/kernel/gpu/bif/arch/ada/kernel_bif_ad102.c:73-77 | The poll's result is NV_OK exactly when some read saw ALLOW=YES; otherwise NV_ERR_TIMEOUT, after 1 + ticks reads |
| ErotGrant.PollReads | src/nvidia/src/kernel/gpu/bif/arch/ada/kernel_bif_ad102.c:73 | Reference poll over the values the register shows: it reads a prefix of them that is a valid poll trace |
| ErotGrant.PollReadsSameVerdicts | src/nvidia/src/kernel/gpu/bif/arch/ada/kernel_bif_ad102.c:143-145 | Two registers that agree on the ALLOW verdict of every value they show make the poll read equally often and return the same status |
| ErotGrant.PollTraceIsPollReads | src/nvidia/src/kernel/gpu/bif/arch/ada/kernel_bif_ad102.c:73 | Any poll trace over the shown values is the reference one: the poll stops at the first grant and reads nothing more |
| ErotGrant.GrantRequestOutcome | src/nvidia/src/kernel/gpu/bif/arch/ada/kernel_bif_ad102.c:44-45 | The request returns only NV_OK or NV_ERR_TIMEOUT; it writes the register at most once, and exactly once when it times out |
| ErotGrant.Classify | src/nvidia/src/kernel/gpu/bif/arch/ada/kernel_bif_ad102.c:58-68 | The state the first reads put the request in shows in the trace's length: one read without an eRoT, two when the grant was already there, three or more when the request was made |
| ErotGrant.NoErotMeansNoWrite | src/nvidia/src/kernel/gpu/bif/arch/ada/kernel_bif_ad102.c:56-62 | VALID=NO on the first read: a single read, NV_OK, no write |
| ErotGrant.AlreadyGrantedMeansNoWrite | src/nvidia/src/kernel/gpu/bif/arch/ada/kernel_bif_ad102.c:64-68 | ALLOW=YES on the predicate's re-read: exactly two reads, NV_OK, no write |
| ErotGrant.PendingGrantWritesOnce | src/nvidia/src/kernel/gpu/bif/arch/ada/kernel_bif_ad102.c:70-71 | Otherwise exactly one write, and it is the FIRST value read with REQUEST set |
| ErotGrant.PendingOutcome | src/nvidia/src/kernel/gpu/bif/arch/ada/kernel_bif_ad102.c:64-79 | With an eRoT and no grant yet, the outcome is the poll's status and the one write |
| ErotGrant.GrantOkIffAllowSeen | src/nvidia/src/kernel/gpu/bif/arch/ada/kernel_bif_ad102.c:45-79 | The request returns NV_OK iff there is no eRoT or some read after the first saw ALLOW=YES; otherwise NV_ERR_TIMEOUT, after one write and the whole deadline |
| ErotGrant.RequestAfterGrantIsNoOp | src/nvidia/src/kernel/gpu/bif/arch/ada/kernel_bif_ad102.c:56-68 | Calling again once the grant is in place (register left alone) reads, returns NV_OK and writes nothing |
| ErotGrant.Gpu.ReadErotGrant | src/nvidia/src/kernel/gpu/bif/arch/ada/kernel_bif_ad102.c:56 | A register read returns whatever the register holds now and appends it to the read log |
| ErotGrant.Gpu.WriteErotGrant | src/nvidia/src/kernel/gpu/bif/arch/ada/kernel_bif_ad102.c:71 | A register write stores the value and appends it to the write log |
| ErotGrant.Gpu.PreOsCheckErotGrantAllowed | src/nvidia/src/kernel/gpu/bif/arch/ada/kernel_bif_ad102.c:136-146 | Each evaluation makes one fresh read, writes nothing and returns the ALLOW=YES test of that read |
| ErotGrant.Gpu.TimeoutCondWaitGrantAllowed | src/nvidia/src/kernel/gpu/bif/arch/ada/kernel_bif_ad102.c:73 | The loop's reads form a poll trace, it writes nothing, and it returns PollStatus of those reads |
| ErotGrant.Gpu.RequestGrantAndWait | src/nvidia/src/kernel/gpu/bif/arch/ada/kernel_bif_ad102.c:70-79 | Exactly one write, the value first read with REQUEST set, then a poll whose reads form a poll trace and whose status is PollStatus of them |
| ErotGrant.Gpu.PreOsGlobalErotGrantRequest | src/nvidia/src/kernel/gpu/bif/arch/ada/kernel_bif_ad102.c:48-80 | The call appends its reads `rd`, a valid grant trace, to the read log; the writes it appends and the status it returns are exactly GrantRequestOutcome(rd) |
| ErotGrant.NoErotOutcome | src/nvidia/src/kernel/gpu/bif/arch/ada/kernel_bif_ad102.c:56-62 | A first read with VALID=NO is a complete trace whose outcome is NV_OK with no write |
| ErotGrant.AlreadyGrantedOutcome | src/nvidia/src/kernel/gpu/bif/arch/ada/kernel_bif_ad102.c:64-68 | A first read with an eRoT and a re-read with ALLOW=YES is a complete trace whose outcome is NV_OK with no write |
| XveRegMap.MsixTableBytes | src/nvidia/src/kernel/gpu/bif/arch/ada/kernel_bif_ad102.c:115-118 | The requested byte count is 16 bytes per vector of the count taken modulo 2^30 (the 32-bit `controlSize * 4` wraps): exactly 16 per vector below 2^30, always a multiple of 16 and below 2^34 |
| XveRegMap.MsixTableHoldsFourWordsPerVector | src/nvidia/src/kernel/gpu/bif/arch/ada/kernel_bif_ad102.c:115-118 | The shadow buffer holds four 32-bit words per MSI-X vector |
| XveRegMap.HoldsAd102Maps | src/nvidia/src/kernel/gpu/bif/arch/ada/kernel_bif_ad102.c:109-114 | Definition of the state lines 109-114 leave in entry 0: function 0, the chip's tables and their counts, and the boot config-space alias; InitXveRegMap ensures it and InstalledCountsMatchTables states the counts match the tables |
| XveRegMap.InstalledCountsMatchTables | src/nvidia/src/kernel/gpu/bif/arch/ada/kernel_bif_ad102.c:109-114 | An installed entry's element counts are the lengths of the tables it points to |
| XveRegMap.NonPagedHeap.AllocNonPaged | src/nvidia/src/kernel/gpu/bif/arch/ada/kernel_bif_ad102.c:118 | The allocator is asked once for the given size and returns NULL or a fresh buffer of that many bytes |
| XveRegMap.KernelBif.InitXveRegMapGM107 | src/nvidia/src/kernel/gpu/bif/arch/ada/kernel_bif_ad102.c:124 | The delegate may change only the entry of the function it is given; its call and status are logged |
| XveRegMap.KernelBif.InitXveRegMap | src/nvidia/src/kernel/gpu/bif/arch/ada/kernel_bif_ad102.c:96-134 | Function 0: entry 0 holds the chip's tables, counts and boot config-space alias whatever the outcome. An existing MSI-X buffer is kept with no allocation; a missing one is requested once with MsixTableBytes. NV_ERR_NO_MEMORY iff the buffer is still NULL, else NV_OK. Entry 1 is untouched. Function 1: entry 0 is untouched and the status is the GM107 initialiser's. Other: NV_ERR_INVALID_ARGUMENT and nothing changes |
| XveRegMap.KernelBif.InitFunc0Twice | src/nvidia/src/kernel/gpu/bif/arch/ada/kernel_bif_ad102.c:109-119 | When the first function-0 call succeeds, the second succeeds too; afterwards entry 0 holds the chip maps and a non-NULL buffer (the pre-existing one if there was one), and the two calls together requested exactly one allocation of MsixTableBytes if the slot was NULL and none otherwise, so the second call requested nothing |

## Left out

- The register offset of `NV_PBUS_SW_GLOBAL_EROT_GRANT` and the bit positions of its VALID, ALLOW and REQUEST fields come from chip headers that are not part of this model. They are unspecified constants, and every property holds for any disjoint layout with each value inside its field.
- `gpuTimeoutCondWait` counts wall-clock time. It is modelled as one evaluation plus at most `ticks` more, and `ticks` stands for the deadline.
- `gpuTimeoutCondWait` is assumed to return only NV_OK or NV_ERR_TIMEOUT, as lines 44-45 document; the request returns that status unchanged (lines 73 and 79). Any other code it might return is not modelled.
- The eRoT is an independent agent. Every register read may return any value. The model does not capture which values real firmware can produce, or when.
- The contents of `NV_PCFG_XVE_REGISTER_VALID_MAP` and `NV_PCFG_XVE_REGISTER_WR_MAP` come from a header that is not part of this model. They are unspecified constant sequences, so a relation between them (such as "writable implies valid") cannot be stated.
- The element counts are `nat`, not 32-bit: the tables are far smaller than 2^32 entries.
- XveRegMap.KernelBif.InitXveRegMapGM107: `kbifInitXveRegMap_GM107` is not part of this model. It is assumed to touch only the entry it is given and not to use the allocator's log, and it may return any status.
- `kbifGetMSIXTableVectorControlSize_HAL` is not part of this model. Its answer is the constant `KernelBif.msixVectorControlSize`, read in its place.
- `portMemAllocNonPaged` is not part of this model. It may return NULL for any request, and the contents of what it returns are unspecified.
- Error logging (`NV_PRINTF`), the `NV_ASSERT` debug trap on an invalid function number and the assertion printout on allocation failure are not modelled. Only their return values are.
- Concurrent callers and MMIO ordering are not modelled. Each operation runs on one thread.
