# Verified model of the niobeu4 board support code

This project models the stateful parts of the board support code for the niobeu4 board (an ESP32 running LiteOS-M)
and proves what they guarantee.

- **Flash** (`NorFlash`, `IotFlash`): reading, writing and erasing NOR flash through the IoT interface. A write with
  erase backs up both sides of the range, erases whole sectors, restores both sides and programs the data. The chip is
  an array of bytes; programming clears bits, erasing sets whole sectors to 0xFF, and every transfer may fail half way.
- **Context switch** (`FrameMemory`, `TaskContext`, `ContextRoundTrip`, `ContextTheorems`, `ContextTasks`): the save
  and restore macros as programs of a register machine over byte memory, with the lazily saved floating-point
  registers, and any number of tasks that share the core through them.
- **littlefs block devices** (`Littlefs`, `LittlefsBackends`): the RAM and the flash back end behind one interface.
- **Wi-Fi device** (`WifiErrors`, `WifiConfigs`, `WifiListeners`, `WifiLifecycle`): the table of network
  configurations, the registry of event listeners, and enabling and disabling the station and the hotspot.
- **Console** (`UartLog`, `UartLogTasks`, `UartLogProgress`): sending a message through a FIFO, and any number of tasks
  that share the message buffer, none of whose messages can get stuck.
- **Drivers** (`SpiDevice`, `PwmTimer`, `UartRead`, `FileSeek`, `HexDecoder`, `PinIndex`): SPI open counting, the PWM
  timer resolution, the accumulating UART read, seeking in a file, and two text decoders.

`Machine` holds what several modules share. Objects whose fields the source updates are classes; their methods are
proved against functions on values, and the laws are lemmas about those functions. Results of library and hardware
calls are parameters or arbitrary choices.

Ten places where the code does less than its interface suggests are stated exactly:

- An erasing flash write also turns the byte just behind its range into 0xFF (`ErasingWriteLeavesGap`); it keeps that
  byte exactly when it was 0xFF before (`ExactWhenNextByteErased`, `NextByteLost`).
- A save stores nothing for a CPENABLE of 0, but a restore always loads its slot, so an old value can come back
  (`CpenableRoundTrip`, `StaleCpenable`).
- `GetDeviceConfigs` may store one entry more than its caller allows (`StoredCount`, `OneEntryTooMany`).
- A listener can be registered twice once the registry has a hole before it (`DuplicateIff`).
- `IoTUartRead` can report success after fewer bytes than asked for (`FilledIsCompleteIff`, `ShortSuccess`).
- A seek to a negative position leaves the cursor at the end of the file (`BoundedCursorIff`, `NegativeSeekMovesToEnd`).
- `RemoveDevice` and `DeviceWifiStart` mean to clear a configuration, but the copy helper ignores a NULL source, so only
  the network id changes (`RemoveFreesOneId`, `RemovedSlotIsNotCleared`).
- A failed enable can leave an inactive device holding its interface and handlers; a disable refuses to release them,
  only the next enable does (`IdleAfterFailureIff`, `FailedEnableHolds`, `EnableReleasesLeftovers`).
- An ill-formed pin string is read as a number exactly when a character lies below '0' and none above '9'
  (`IllFormedGetsThroughIff`, `IntendedReadingIff`); "GPIO_NUM_1/" is pin 9 (`SlashReadsAsPin`).
- An SPI device whose open or close fails between two hardware steps can never be opened again (`FailedOpenSticks`,
  `StuckForever`).

## Model

| member | source | states |
|---|---|---|
| IotFlash.WindowPartition | niobeu4/liteos_m/hals/iot_hardware/wifiiot_lite/hal_iot_flash.c:53-57 | For every range below the last sector of the address space the prefix backup, the data, one further byte and the tail backup partition the sector-aligned erase window |
| IotFlash.BackupsInsideWindow | niobeu4/liteos_m/hals/iot_hardware/wifiiot_lite/hal_iot_flash.c:53-57 | For every 32-bit offset and size, wrapped or not, for which the erase window ends below the last sector of the address space, both backups lie inside the window or it is empty |
| IotFlash.ErasingWriteLeavesGap | niobeu4/liteos_m/hals/iot_hardware/wifiiot_lite/hal_iot_flash.c:64-97 | Backup, erase, restore and program together put the data in place, turn the byte behind it into 0xFF and keep every other byte of the chip |
| IotFlash.ExactWhenNextByteErased | niobeu4/liteos_m/hals/iot_hardware/wifiiot_lite/hal_iot_flash.c:70-88 | The write changes nothing outside its range if and only if the byte behind the range was already 0xFF |
| IotFlash.NextByteLost | niobeu4/liteos_m/hals/iot_hardware/wifiiot_lite/hal_iot_flash.c:70-88 | On a sector of zeros, writing one byte with erase turns the next one into 0xFF |
| IotFlash.WrappedWriteRestoresAll | niobeu4/liteos_m/hals/iot_hardware/wifiiot_lite/hal_iot_flash.c:53-92 | When the range does not end below the last sector, the two backups meet and erasing and restoring changes nothing |
| IotFlash.WriteThenRead | niobeu4/liteos_m/hals/iot_hardware/wifiiot_lite/hal_iot_flash.c:34-99 | An erasing write followed by a read of the same range, both successful, gives the caller's bytes back; and both are successful when all their calls get through on a range with its sector on the chip |
| IotFlash.PlainWriteReadsBack | niobeu4/liteos_m/hals/iot_hardware/wifiiot_lite/hal_iot_flash.c:97 | Without an erase the data reads back if and only if it sets no bit that was clear |
| IotFlash.BitsOnlyClear | niobeu4/liteos_m/hals/iot_hardware/wifiiot_lite/hal_iot_flash.c:97-98 | Over any run of writes without erase, successful or failing half way, bits only go from 1 to 0 |
| IotFlash.UntouchedByteKept | niobeu4/liteos_m/hals/iot_hardware/wifiiot_lite/hal_iot_flash.c:97-98 | Over such a run a byte outside all ranges keeps its value |
| IotFlash.RestoreInside | niobeu4/liteos_m/hals/iot_hardware/wifiiot_lite/hal_iot_flash.c:82-92 | Restoring a backup, completely or half way, never reaches outside the erase window |
| IotFlash.IoTFlashWrite | niobeu4/liteos_m/hals/iot_hardware/wifiiot_lite/hal_iot_flash.c:44-99 | The write succeeds if and only if it has data, malloc and every call made get through, and the range (with erase: to the end of the sector of the byte behind it) lies on the chip; otherwise the first failing step is named; the exact contents after success with and without erase; nothing changes on a failure before the erase, changes stay in the window on a failure of the erase or a restore, and only the range and the byte behind it differ when the last step fails |
| IotFlash.IoTFlashRead | niobeu4/liteos_m/hals/iot_hardware/wifiiot_lite/hal_iot_flash.c:34-42 | Succeeds if and only if the request is not empty, the buffer not NULL, the range on the chip and the transfer gets through; then the buffer holds exactly the requested bytes |
| IotFlash.IoTFlashErase | niobeu4/liteos_m/hals/iot_hardware/wifiiot_lite/hal_iot_flash.c:101-109 | Succeeds if and only if the size is not zero, the range is whole sectors of the chip and the call gets through, and then erases exactly the range; on every path bytes outside it are kept |
| TaskContext.OffsetsMatchStructure | niobeu4/liteos_m/arch/los_arch_regs.h:91-144 | Every frame offset the macros use is the offset of its field in the structure TaskContext, and CONTEXT_SIZE is the structure's size, with and without the FPU |
| TaskContext.Core.Run | niobeu4/liteos_m/arch/los_arch_macro.h:41-162 | Executing a macro in place, instruction by instruction with its forward branches, ends in the state the value semantics gives |
| ContextRoundTrip.PushIntEffect | niobeu4/liteos_m/arch/los_arch_macro.h:106-131 | For every state and every base but a3 a save fills the slots of a0-a15, SAR, the loop registers and PS with their values and writes nothing outside frame offsets 4 to 96 |
| ContextRoundTrip.PushFpuEffect | niobeu4/liteos_m/arch/los_arch_macro.h:132-160 | The lazy part of a save stores nothing when CPENABLE is 0, the two marks and nothing else when its bit 0 is clear, and the marks and the floats when it is set |
| ContextRoundTrip.PopIntEffect | niobeu4/liteos_m/arch/los_arch_macro.h:75-102 | From which frame each register comes when the base is a2 and when it is a1, whose own load replaces the base half way |
| ContextRoundTrip.PopFpuEffect | niobeu4/liteos_m/arch/los_arch_macro.h:42-74 | A restore loads FCR, FSR and f0-f15 exactly when CPSTORED has bit 0 set, and clears CPSTORED |
| ContextTheorems.SaveRestore | niobeu4/liteos_m/arch/los_arch_macro.h:41-162 | A save from any base but a3, then anything that keeps the frame, then a restore with base a2 brings back a0-a15, SAR, the loop registers and PS, and loads PC from its slot |
| ContextTheorems.RestoreFromA1 | niobeu4/liteos_m/arch/los_arch_macro.h:75-102 | With base a1 a restore gives what base a2 gives, SAR and the loop registers always and the rest if and only if the frames at the base and at the saved A1 hold the same words |
| ContextTheorems.A1SlotMustBeFrameAddress | niobeu4/liteos_m/arch/los_arch_macro.h:82 | These frames agree in every memory if and only if the saved A1 is the frame address |
| ContextTheorems.SaveRestoreOnStackPointer | niobeu4/liteos_m/arch/los_arch_macro.h:41-162 | A save with base a1 or any base of the same value but a3, and a restore with base a1, bring back a0-a15, SAR, the loop registers and PS, and load PC from its slot |
| ContextTheorems.PushBaseMustNotBeA3 | niobeu4/liteos_m/arch/los_arch_macro.h:122-131 | A save, with or without the FPU part, fills the special register slots from every state if and only if its base is not a3 |
| ContextTheorems.FpuRound | niobeu4/liteos_m/arch/los_arch_macro.h:42-74 | From a frame with CPSTORED 0 the restore loads the floats exactly when the save stored them, with the saved values, and CPSTORED is 0 again |
| ContextTheorems.CpenableRoundTrip | niobeu4/liteos_m/arch/los_arch_macro.h:43-44 | CPENABLE comes back if and only if it is nonzero and below 2^16, or 0 with a slot that was 0 |
| ContextTheorems.StaleCpenable | niobeu4/liteos_m/arch/los_arch_macro.h:132-136 | A save with CPENABLE 0 into a frame whose CPENABLE slot holds 1, followed by its restore, makes CPENABLE 1 |
| ContextTheorems.FpuRunFollows | niobeu4/liteos_m/arch/los_arch_macro.h:132-160 | The same holds in every round of any alternating run of saves and restores on one frame |
| ContextTasks.TasksKeepTheirContext | niobeu4/liteos_m/arch/los_arch_macro.h:41-162 | For any number of tasks with disjoint frames and any schedule of saves, restores and code that leaves the frames alone, a task that resumes has the a0-a15, SAR, loop registers and PS of its last save, and PC from its slot; its floats are loaded, with their values of then, exactly when bit 0 of CPENABLE was set at the save, and CPENABLE comes back when it was nonzero and below 2^16 |
| ContextTasks.StepKeepsInv | niobeu4/liteos_m/arch/los_arch_macro.h:41-162 | Every save, restore and stretch of code keeps this: a suspended task's frame holds what its save stored, and CPSTORED of every other frame is 0 |
| ContextTasks.OthersInv | niobeu4/liteos_m/arch/los_arch_macro.h:105-162 | A macro working on one frame keeps that of every other task whose frame does not overlap it, with addresses that wrap around |
| ContextTasks.RecordStays | niobeu4/liteos_m/arch/los_arch_macro.h:105-162 | Until a task's next own event the record of its last save is unchanged |
| ContextTasks.TakingTurns | niobeu4/liteos_m/arch/los_arch_macro.h:41-162 | Such a schedule, of two tasks that take turns, exists for any two disjoint frames whose CPSTORED is 0 |
| Littlefs.RamDisk.Config | niobeu4/liteos_m/third_party_adapter/littlefs/littlefs_ram.c:105-124 | The RAM region starts fully erased and the blocks fill it up to less than one block |
| Littlefs.RamDisk.BlockRead | niobeu4/liteos_m/third_party_adapter/littlefs/littlefs_ram.c:48-61 | Succeeds exactly for a non-empty range inside the buffer and then returns its bytes; always succeeds for a read in range of the region |
| Littlefs.RamDisk.BlockWrite | niobeu4/liteos_m/third_party_adapter/littlefs/littlefs_ram.c:64-77 | Succeeds exactly for a non-empty range inside the buffer and then overwrites it and nothing else; a write in range of the region always succeeds and is one RamStep |
| Littlefs.RamDisk.BlockErase | niobeu4/liteos_m/third_party_adapter/littlefs/littlefs_ram.c:80-91 | Succeeds exactly for a block inside the buffer and then sets it and nothing else to 0xFF; for a block of the region it always succeeds and is one RamStep |
| Littlefs.FlashDisk.BlockRead | niobeu4/liteos_m/third_party_adapter/littlefs/littlefs.c:60-64 | Succeeds if and only if the transfer gets through on a range of the chip, with the bytes at the block's (wrapped) address, which for a read in range is the exact one |
| Littlefs.FlashDisk.BlockWrite | niobeu4/liteos_m/third_party_adapter/littlefs/littlefs.c:67-71 | Succeeds if and only if the transfer gets through on a range of the chip and then clears bits in exactly that range, a failure stays inside it; in range of the region this is one FlashCall that fails only with the hardware |
| Littlefs.FlashDisk.BlockErase | niobeu4/liteos_m/third_party_adapter/littlefs/littlefs.c:74-77 | Succeeds if and only if the call gets through on whole sectors of the chip and then erases exactly the block, a failure stays inside it; in range of an aligned region this is one FlashCall that fails only with the hardware |
| Littlefs.BlocksAreDisjoint | niobeu4/liteos_m/third_party_adapter/littlefs/littlefs_ram.c:52 | For any block size and count the blocks do not overlap and lie in the region |
| LittlefsBackends.RamStepRefinesBlocks | niobeu4/liteos_m/third_party_adapter/littlefs/littlefs_ram.c:48-91 | Seen as an array of blocks, a RAM operation changes its own block as asked and no other |
| LittlefsBackends.FlashStepRefinesBlocks | niobeu4/liteos_m/third_party_adapter/littlefs/littlefs.c:60-77 | Seen as an array of blocks, a flash operation changes its own block as asked and no other |
| LittlefsBackends.StepStaysInRegion | niobeu4/liteos_m/third_party_adapter/littlefs/littlefs.c:60-77 | No operation, even a failing one, changes a byte outside the region |
| LittlefsBackends.BackendsAgreeFromStart | niobeu4/liteos_m/third_party_adapter/littlefs/littlefs.c:60-77 | From any contents, over any run that programs bytes only after an erase and once per erase, with flash calls that may fail, both back ends return the same data for every successful read of bytes erased since the start and not touched by a failing call since |
| LittlefsBackends.KnownBytesReadTheSame | niobeu4/liteos_m/third_party_adapter/littlefs/littlefs.c:60-77 | In every run that programs what has been erased and not programmed since, from any contents and with flash calls that may fail, a successful read whose bytes have each been erased with no failing call on them since returns the same data on both back ends |
| LittlefsBackends.DisciplinedIff | niobeu4/liteos_m/third_party_adapter/littlefs/littlefs.c:60-77 | The discipline kept up with the run is that condition on its events |
| LittlefsBackends.TrackedIff | niobeu4/liteos_m/third_party_adapter/littlefs/littlefs.c:60-77 | A byte is known if and only if a successful erase has covered it and no failing call since, and ready if and only if nothing has programmed it since either |
| LittlefsBackends.WriteAgreesIff | niobeu4/liteos_m/third_party_adapter/littlefs/littlefs_ram.c:72 | A byte on which both agree still agrees after a write if and only if the write sets no clear bit |
| WifiConfigs.ConfigTable.DeviceWifiStart | niobeu4/liteos_m/hals/drivers/wifi_lite/wifi_device.c:353-360 | After the start no id is live and every slot keeps its other fields |
| WifiConfigs.ConfigTable.AddDeviceConfig | niobeu4/liteos_m/hals/drivers/wifi_lite/wifi_device.c:499-521 | NULL is refused, a full table is busy, otherwise the configuration goes to the first slot that is not live and that index is reported |
| WifiConfigs.ConfigTable.GetDeviceConfigs | niobeu4/liteos_m/hals/drivers/wifi_lite/wifi_device.c:523-550 | The entries stored are the live configurations with the least ids, by increasing id, none left out below a stored one, as many as there are up to size + 1; with the error cases |
| WifiConfigs.ConfigTable.RemoveDevice | niobeu4/liteos_m/hals/drivers/wifi_lite/wifi_device.c:552-564 | An id in range frees its slot, any other is refused and changes nothing |
| WifiConfigs.ConfigTable.ConnectToCheck | niobeu4/liteos_m/hals/drivers/wifi_lite/wifi_device.c:672-687 | On an active device the check passes exactly for the live ids; an id out of range is INVALID_ARGS and every other refusal NOT_AVAILABLE |
| WifiConfigs.AddTakesLeastFree | niobeu4/liteos_m/hals/drivers/wifi_lite/wifi_device.c:505-520 | On the finite map the table stands for, adding binds the least free id, keeps the slot invariant and leaves every other slot alone |
| WifiConfigs.FullIff | niobeu4/liteos_m/hals/drivers/wifi_lite/wifi_device.c:505-520 | The table is full if and only if every id is live |
| WifiConfigs.RemoveFreesOneId | niobeu4/liteos_m/hals/drivers/wifi_lite/wifi_device.c:559-563 | Removing takes exactly one id out of the map and leaves the other fields of every slot |
| WifiConfigs.RemovedSlotIsNotCleared | niobeu4/liteos_m/hals/drivers/wifi_lite/wifi_device.c:559-563 | Removing the configuration "home" changes its network id and nothing else |
| WifiConfigs.AddThenRemove | niobeu4/liteos_m/hals/drivers/wifi_lite/wifi_device.c:499-564 | Removing what was just added restores the map |
| WifiConfigs.TableRefinesMap | niobeu4/liteos_m/hals/drivers/wifi_lite/wifi_device.c:499-564 | Over any run of additions and removals the table returns the same ids and codes, and leaves the same map, as a finite map with least-free-id allocation |
| WifiConfigs.ListedInOrder | niobeu4/liteos_m/hals/drivers/wifi_lite/wifi_device.c:534-542 | The listing holds the live configurations and no others, by increasing id |
| WifiConfigs.StoredCount | niobeu4/liteos_m/hals/drivers/wifi_lite/wifi_device.c:538-541 | The number of entries stored is min(live, size + 1), within the caller's size if and only if at most size ids are live |
| WifiConfigs.StoredFirstLive | niobeu4/liteos_m/hals/drivers/wifi_lite/wifi_device.c:531-548 | What is stored are the live configurations with the least ids, in order, up to size + 1 |
| WifiConfigs.FirstLiveIsUnique | niobeu4/liteos_m/hals/drivers/wifi_lite/wifi_device.c:531-548 | Only one sequence of entries is that |
| WifiConfigs.OneEntryTooMany | niobeu4/liteos_m/hals/drivers/wifi_lite/wifi_device.c:538-541 | Two live configurations and a size of one: two entries are stored |
| WifiListeners.Registry.RegisterWifiEvent | niobeu4/liteos_m/hals/drivers/wifi_lite/wifi_device.c:143-165 | NULL is refused; otherwise table and code follow the search for the listener and the first hole |
| WifiListeners.Registry.UnRegisterWifiEvent | niobeu4/liteos_m/hals/drivers/wifi_lite/wifi_device.c:124-141 | NULL is refused; otherwise the first copy becomes a hole |
| WifiListeners.Registry.Send | niobeu4/liteos_m/hals/drivers/wifi_lite/wifi_device.c:190-262 | Every occupied slot whose listener provides the callback is called exactly once, in slot order |
| WifiListeners.RegisterCodes | niobeu4/liteos_m/hals/drivers/wifi_lite/wifi_device.c:152-162 | INVALID_ARGS exactly when the listener occurs before the first hole, UNKNOWN exactly when the table is full without it, and success fills the first hole |
| WifiListeners.UnregisterCodes | niobeu4/liteos_m/hals/drivers/wifi_lite/wifi_device.c:131-137 | Removal succeeds exactly for a registered listener, and empties the slot of its first copy |
| WifiListeners.RegisterBag | niobeu4/liteos_m/hals/drivers/wifi_lite/wifi_device.c:152-162 | A successful registration exchanges one hole for one copy of the listener, a failed one changes nothing |
| WifiListeners.UnregisterBag | niobeu4/liteos_m/hals/drivers/wifi_lite/wifi_device.c:131-137 | A successful removal exchanges one copy for a hole, a failed one changes nothing |
| WifiListeners.CopiesBalance | niobeu4/liteos_m/hals/drivers/wifi_lite/wifi_device.c:124-165 | Over any run the copies of a listener are those at the start plus successful registrations minus successful removals |
| WifiListeners.RegisterRunHasNoDuplicates | niobeu4/liteos_m/hals/drivers/wifi_lite/wifi_device.c:143-165 | Registrations alone keep a table without holes in between free of duplicates |
| WifiListeners.DuplicateIff | niobeu4/liteos_m/hals/drivers/wifi_lite/wifi_device.c:152-162 | A registration adds a second copy if and only if the listener is there only behind a hole |
| WifiListeners.DuplicateArises | niobeu4/liteos_m/hals/drivers/wifi_lite/wifi_device.c:124-165 | A run of four calls that ends with the same listener in two slots |
| WifiLifecycle.WifiDevice.WifiLock | niobeu4/liteos_m/hals/drivers/wifi_lite/wifi_device.c:99-110 | The mutex is created on first use; if that fails nothing is held |
| WifiLifecycle.WifiDevice.UnregisterEspEvent | niobeu4/liteos_m/hals/drivers/wifi_lite/wifi_device.c:384-403 | Handlers and interface that are live are released once and their slots emptied, under the lock |
| WifiLifecycle.WifiDevice.RegisterEspEvent | niobeu4/liteos_m/hals/drivers/wifi_lite/wifi_device.c:405-435 | What is acquired under each combination of failing calls, and that only the interface and the last call decide the result |
| WifiLifecycle.WifiDevice.EnableWifi | niobeu4/liteos_m/hals/drivers/wifi_lite/wifi_device.c:437-464 | State and result for every combination of failing calls |
| WifiLifecycle.WifiDevice.DisableWifi | niobeu4/liteos_m/hals/drivers/wifi_lite/wifi_device.c:466-479 | State and result, with the lock nested once; success if and only if the device was active, NOT_STARTED and nothing changed otherwise |
| WifiLifecycle.WifiDevice.EnableHotspot | niobeu4/liteos_m/hals/drivers/wifi_lite/wifi_device.c:872-924 | State and result for every combination of failing calls |
| WifiLifecycle.LockRoundTrip | niobeu4/liteos_m/hals/drivers/wifi_lite/wifi_device.c:99-117 | Lock and unlock bring the depth back, even when no mutex can be created, if and only if the created handle is not 2^32 - 8, whose stored form is 0; every handle is recovered from its stored form |
| WifiLifecycle.NothingLeaks | niobeu4/liteos_m/hals/drivers/wifi_lite/wifi_device.c:384-479 | Over any run with arbitrary failures the acquired minus released interfaces and handlers are 1 or 0 as their slots are filled or empty, an active device has its interface, and the lock depth is the one at entry |
| WifiLifecycle.NothingLeaksFromStart | niobeu4/liteos_m/hals/drivers/wifi_lite/wifi_device.c:384-479 | From power-up, over any run, at most one interface and one handler of each kind are held, and the lock is free |
| WifiLifecycle.EnableSucceedsIff | niobeu4/liteos_m/hals/drivers/wifi_lite/wifi_device.c:437-464 | Enabling succeeds if and only if the device is inactive and interface, mode and start calls succeed, whatever becomes of the handlers; the interface then has the requested mode |
| WifiLifecycle.EnableCodes | niobeu4/liteos_m/hals/drivers/wifi_lite/wifi_device.c:872-924 | The station reports BUSY, and the hotspot INVALID_ARGS, for exactly one cause each |
| WifiLifecycle.IdleAfterFailureIff | niobeu4/liteos_m/hals/drivers/wifi_lite/wifi_device.c:384-464 | After a failed enable the inactive device holds nothing if and only if neither the interface nor a handler could be had |
| WifiLifecycle.FailedEnableHolds | niobeu4/liteos_m/hals/drivers/wifi_lite/wifi_device.c:437-479 | A first enable that only fails to start the driver leaves an interface held that a disable refuses to release |
| WifiLifecycle.EnableReleasesLeftovers | niobeu4/liteos_m/hals/drivers/wifi_lite/wifi_device.c:384-464 | The next enable, failing or not, releases exactly the slots that were left |
| WifiLifecycle.EnableSlots | niobeu4/liteos_m/hals/drivers/wifi_lite/wifi_device.c:384-464 | After an enable of an inactive device, failing or not, each slot holds exactly what this enable could have, and that alone was acquired |
| WifiLifecycle.EnableLocks | niobeu4/liteos_m/hals/drivers/wifi_lite/wifi_device.c:384-464 | It takes the lock for teardown, setup and start, each time creating the mutex if there is none and going on without if that fails |
| WifiLifecycle.DisableCodes | niobeu4/liteos_m/hals/drivers/wifi_lite/wifi_device.c:466-479 | A disable succeeds if and only if the device is active, and leaves an inactive one alone |
| WifiLifecycle.DisableLocks | niobeu4/liteos_m/hals/drivers/wifi_lite/wifi_device.c:466-479 | A disable of an active device takes the lock twice, nested |
| WifiLifecycle.DisableReleasesAll | niobeu4/liteos_m/hals/drivers/wifi_lite/wifi_device.c:466-479 | Disabling an active device leaves nothing acquired, and disabling again reports NOT_STARTED |
| WifiLifecycle.DisableKeepsCounts | niobeu4/liteos_m/hals/drivers/wifi_lite/wifi_device.c:466-479 | It acquires nothing and releases each live slot once |
| WifiLifecycle.BusyUntilDisabled | niobeu4/liteos_m/hals/drivers/wifi_lite/wifi_device.c:71-74 | Station and hotspot share one status: while either is on, enabling either changes nothing |
| UartLog.Transmit | niobeu4/liteos_m/hals/log/log.c:52-68 | The polling loop writes the chunks, and leaves the rest, that the reports determine |
| UartLog.ChunksMakeUpMessage | niobeu4/liteos_m/hals/log/log.c:55-67 | For every message and every sequence of reports the chunks and the rest concatenate to the message |
| UartLog.ChunksPrefix | niobeu4/liteos_m/hals/log/log.c:55-67 | The writes made so far do not depend on later reports |
| UartLog.ChunksFit | niobeu4/liteos_m/hals/log/log.c:55-67 | No chunk is empty or larger than the space last reported |
| UartLog.UnsentLength | niobeu4/liteos_m/hals/log/log.c:55-65 | The message is out if and only if the reports add up to its length, and until then the rest shrinks by their sum |
| UartLog.NonzeroReportProgress | niobeu4/liteos_m/hals/log/log.c:56-60 | Every further nonzero report strictly shortens the rest |
| UartLogTasks.MessagesStayWhole | niobeu4/liteos_m/hals/log/log.c:41-71 | For any number of tasks, messages, reports and switches at the allowed points at most one of them owns the buffer, the stream is whole messages plus a prefix of the owner's, and each one's messages come out in order, none lost or repeated |
| UartLogTasks.SwitchBetweenTestAndSetBreaksIt | niobeu4/liteos_m/hals/log/log.c:45-50 | If a switch may fall between the test of bufLock and its assignment, two owners are possible |
| UartLogProgress.EveryMessageComesOut | niobeu4/liteos_m/hals/log/log.c:41-71 | Every cooperative run of any number of tasks can go on, with nobody printing anything new, until all messages the tasks have asked for are out, each task's whole and in order, and the buffer is free |
| UartLogProgress.OwnStepsSuffice | niobeu4/liteos_m/hals/log/log.c:45-70 | A task that runs while it owns the buffer or nobody does gets everything it asked for out by at most 2 * length + 7 of its own steps with nonzero reports |
| UartLogProgress.CalledIsAsked | niobeu4/liteos_m/hals/log/log.c:75-82 | What a task is owed is what its calls in the run asked for |
| UartLogProgress.WaitingArises | niobeu4/liteos_m/hals/log/log.c:45-65 | One task can wait for the FIFO with its message half out while another waits for the buffer |
| SpiDevice.SpiCntlr.SpiDevOpen | niobeu4/liteos_m/hdf_drivers/spi/spi_esp32u4.c:200-237 | State and result for every hardware outcome |
| SpiDevice.SpiCntlr.SpiDevClose | niobeu4/liteos_m/hdf_drivers/spi/spi_esp32u4.c:239-267 | State and result for every hardware outcome |
| SpiDevice.SpiCntlr.SpiDriverRelease | niobeu4/liteos_m/hdf_drivers/spi/spi_esp32u4.c:188-198 | Any positive count is closed as if it were 1, and the private data is dropped |
| SpiDevice.SpiCntlr.SpiDevTransfer | niobeu4/liteos_m/hdf_drivers/spi/spi_esp32u4.c:304-330 | The messages with a buffer go out in order up to the first that fails; success if and only if none fails, DEVICE_BUSY if and only if one does |
| SpiDevice.InvOverRuns | niobeu4/liteos_m/hdf_drivers/spi/spi_esp32u4.c:174-267 | Over any run with arbitrary hardware failures a positive count implies an initialised bus and an attached device, and initialisations exceed frees by one exactly while the bus is up |
| SpiDevice.ExactWithoutFailures | niobeu4/liteos_m/hdf_drivers/spi/spi_esp32u4.c:200-267 | Without hardware failure and below the counter's limit the bus is up exactly while the count is positive |
| SpiDevice.OpensNeedAsManyCloses | niobeu4/liteos_m/hdf_drivers/spi/spi_esp32u4.c:200-267 | After n opens and k closes the bus is up if and only if k < n |
| SpiDevice.CountOverInterleavings | niobeu4/liteos_m/hdf_drivers/spi/spi_esp32u4.c:200-267 | After any interleaving of opens and closes without hardware failure the count is the larger of the start plus opens minus closes, and the best such balance of a final part of the run |
| SpiDevice.BusUpIff | niobeu4/liteos_m/hdf_drivers/spi/spi_esp32u4.c:200-267 | From a closed device the bus is up after such a run if and only if some final part of it opens more than it closes |
| SpiDevice.ReleaseTearsDownIff | niobeu4/liteos_m/hdf_drivers/spi/spi_esp32u4.c:192-197 | From any count a release leaves the bus down if and only if its hardware calls succeed (with nothing open: if the bus was down), and later calls are refused |
| SpiDevice.SucceedsIff | niobeu4/liteos_m/hdf_drivers/spi/spi_esp32u4.c:211-266 | Exactly when an open and when a close succeeds |
| SpiDevice.OpenErrors | niobeu4/liteos_m/hdf_drivers/spi/spi_esp32u4.c:200-237 | Which error each failing hardware step of an open reports, and the state it leaves |
| SpiDevice.CloseErrors | niobeu4/liteos_m/hdf_drivers/spi/spi_esp32u4.c:239-267 | The same for a close, whose counter has gone down all the same |
| SpiDevice.GetsStuckIff | niobeu4/liteos_m/hdf_drivers/spi/spi_esp32u4.c:219-263 | Exactly which call leaves the bus up with a count of 0: one that fails between two hardware steps, or the open that wraps the 16-bit counter |
| SpiDevice.FailedOpenSticks | niobeu4/liteos_m/hdf_drivers/spi/spi_esp32u4.c:210-233 | A first open whose device cannot be attached leaves the bus up with a count of 0 |
| SpiDevice.StuckForever | niobeu4/liteos_m/hdf_drivers/spi/spi_esp32u4.c:211-222 | From then on no run brings the bus down, and every open of a bound device fails |
| PwmTimer.Pwm.IoTPwmStart | niobeu4/liteos_m/hals/iot_hardware/wifiiot_lite/hal_iot_pwm.c:109-160 | A timer is configured exactly for an initialised channel, a duty in 1 to 99 and an accepted frequency, and then with the greatest resolution r with freq * 2^r <= 40000000 |
| PwmTimer.ResolutionIsGreatest | niobeu4/liteos_m/hals/iot_hardware/wifiiot_lite/hal_iot_pwm.c:124-138 | For every accepted frequency the bit length of the quotient minus one is that greatest number, lies between 7 and the timer's limit, and reaches the limit exactly at the largest quotient |
| PwmTimer.GreatestIsUnique | niobeu4/liteos_m/hals/iot_hardware/wifiiot_lite/hal_iot_pwm.c:124-138 | No other resolution is the greatest one |
| PwmTimer.AtLeastPow2 | niobeu4/liteos_m/hals/iot_hardware/wifiiot_lite/hal_iot_pwm.c:129-133 | A number reaches 2^n if and only if the loop counts more than n turns for it |
| UartRead.IoTUartRead | niobeu4/liteos_m/hals/iot_hardware/wifiiot_lite/hal_iot_uart.c:187-221 | Which replies are consumed, why the loop stops, and what the buffer holds, for every sequence of replies and errors |
| UartRead.RemainingIsPrefixSums | niobeu4/liteos_m/hals/iot_hardware/wifiiot_lite/hal_iot_uart.c:203-217 | What remains is the request minus the sum of all prefix sums |
| UartRead.ChunksAreContiguous | niobeu4/liteos_m/hals/iot_hardware/wifiiot_lite/hal_iot_uart.c:206-211 | Without errors the chunks stand one behind the other from the start of the buffer |
| UartRead.LatestChunkStays | niobeu4/liteos_m/hals/iot_hardware/wifiiot_lite/hal_iot_uart.c:206-211 | With failing reads too, each byte of the buffer is the one stored by the last chunk over it, or the old one |
| UartRead.CountLosesErrors | niobeu4/liteos_m/hals/iot_hardware/wifiiot_lite/hal_iot_uart.c:205-211 | The count is the number of bytes delivered minus the number of failing reads |
| UartRead.FilledIsCompleteIff | niobeu4/liteos_m/hals/iot_hardware/wifiiot_lite/hal_iot_uart.c:205-220 | For every successful call, failing reads included, the count equals the request if and only if it was 0 before the last read, which then delivered everything |
| UartRead.CountStaysZeroIff | niobeu4/liteos_m/hals/iot_hardware/wifiiot_lite/hal_iot_uart.c:205-217 | Without failing reads that means that every earlier read delivered nothing |
| UartRead.ShortSuccess | niobeu4/liteos_m/hals/iot_hardware/wifiiot_lite/hal_iot_uart.c:205-220 | Two reads of one byte satisfy a request for three |
| UartRead.ShortSuccessWithError | niobeu4/liteos_m/hals/iot_hardware/wifiiot_lite/hal_iot_uart.c:205-220 | So do a read of two bytes and a failing read, with a count of one |
| FileSeek.File.HalFileSeek | niobeu4/liteos_m/hals/utils/file/hal_file.c:139-175 | Cursor and result for every descriptor, offset and origin; from the end every target that is not negative is reached and returned |
| FileSeek.BoundedCursorIff | niobeu4/liteos_m/hals/utils/file/hal_file.c:161-173 | With SET or CUR a seek is a bounded cursor if and only if the target is not negative (or the cursor already is at the end and the error is -1) |
| FileSeek.NegativeSeekMovesToEnd | niobeu4/liteos_m/hals/utils/file/hal_file.c:163-172 | A seek to -1 in a file of ten bytes moves the cursor from 3 to 10 |
| FileSeek.SeekFromEnd | niobeu4/liteos_m/hals/utils/file/hal_file.c:174 | From the end every target that is not negative is reached, past the end too, and any other moves nothing |
| FileSeek.SeekOutside | niobeu4/liteos_m/hals/utils/file/hal_file.c:161-173 | For every SET or CUR seek: a negative target moves to the end with the error, one behind the end moves nothing and gives -1 |
| FileSeek.CursorStaysInside | niobeu4/liteos_m/hals/utils/file/hal_file.c:161-173 | Over any run of SET and CUR seeks the cursor stays in the file |
| FileSeek.RunRefinesBoundedCursor | niobeu4/liteos_m/hals/utils/file/hal_file.c:161-173 | A run without negative targets moves the cursor, and returns at each call, just what the bounded cursor does |
| HexDecoder.Hexstr2bin | niobeu4/liteos_m/hals/drivers/wifi_lite/esp_wifi_wpa.c:110-132 | Returns 0 exactly for hexadecimal digits; the first half of the good prefix is decoded and the rest of the buffer untouched, on failure too |
| HexDecoder.DecodeInvertsEncode | niobeu4/liteos_m/hals/drivers/wifi_lite/esp_wifi_wpa.c:114-130 | Every byte string comes back from its Base16 encoding (section 8 of RFC 4648) |
| HexDecoder.EncodeInvertsDecode | niobeu4/liteos_m/hals/drivers/wifi_lite/esp_wifi_wpa.c:114-130 | Encoding what an even number of digits decodes to gives these characters with a to f turned into A to F |
| HexDecoder.CaseDoesNotMatter | niobeu4/liteos_m/hals/drivers/wifi_lite/esp_wifi_wpa.c:116-121 | Turning a to f into A to F does not change what a text decodes to |
| HexDecoder.DigitsOfAlphabet | niobeu4/liteos_m/hals/drivers/wifi_lite/esp_wifi_wpa.c:114-125 | The digits accepted are those of the Base16 alphabet in either case |
| PinIndex.GetPinIndexFromStr | niobeu4/liteos_m/hdf_drivers/gpio/gpio_esp32u4.c:205-227 | The index of every string, illegal ones included, whose reading overflows nowhere before it stops |
| PinIndex.DigitsReadIff | niobeu4/liteos_m/hdf_drivers/gpio/gpio_esp32u4.c:214-226 | A digit string is read to its end, and overflows nowhere on the way if and only if its value fits an int |
| PinIndex.ReadingIs | niobeu4/liteos_m/hdf_drivers/gpio/gpio_esp32u4.c:213-226 | A string of accepted length is rejected for a character above '9' and otherwise read as the sum of its characters' distances from '0', each times its power of ten |
| PinIndex.TooShortIsNoPin | niobeu4/liteos_m/hdf_drivers/gpio/gpio_esp32u4.c:207-210 | NULL and strings shorter than ten characters are "not connected" |
| PinIndex.PrintedPinsComeBack | niobeu4/liteos_m/hdf_drivers/pwm/pwm_esp32u4.c:90-112 | The string printed for n is read as n, for every n that fits an int |
| PinIndex.IllFormedGetsThroughIff | niobeu4/liteos_m/hdf_drivers/gpio/gpio_esp32u4.c:215-225 | A tail that is no digit string is read as a number if and only if some character lies below '0' and none above '9' |
| PinIndex.IntendedReadingIff | niobeu4/liteos_m/hdf_drivers/gpio/gpio_esp32u4.c:207-226 | For every string of accepted length the result is the intended one if and only if the tail is a digit string, has a character above '9', or adds up to -1 |
| PinIndex.SlashReadsAsPin | niobeu4/liteos_m/hdf_drivers/gpio/gpio_esp32u4.c:219-224 | "GPIO_NUM_1/" is read as pin 9 |
| PinIndex.DecimalInvertsNumeral | niobeu4/liteos_m/hdf_drivers/gpio/gpio_esp32u4.c:215-225 | A digit string without leading zero is the decimal form of the number it is read as |

## Left out

- IotFlash.IoTFlashWrite: assumes a chip that ends below the last sector of the 32-bit address space.
- Littlefs.RamDisk.BlockRead: excludes ranges that pass the size check only because their end wraps around 32 bits, where the source copies outside its buffer.
- Littlefs.RamDisk.BlockWrite: excludes the same ranges.
- Littlefs.RamDisk.BlockErase: excludes the same ranges.
- ContextTheorems.SaveRestore: FCR, FSR and CPENABLE are modelled as full 32-bit registers; window registers, exceptions and timing are not modelled.
- ContextTasks.TasksKeepTheirContext: each task keeps one frame, in which CPSTORED is 0 before its first save and which no other code writes while it matters; the frame a task is first started from is not modelled.
- UartLogTasks.MessagesStayWhole: covers what tasks print once the scheduler runs; a writer in interrupt context uses its own buffer and no lock, and may put its text between two chunks. A text vsnprintf_s refuses as too long counts as an empty message.
- UartLogProgress.EveryMessageComesOut: says that the run can go on so; under a scheduler that always lets another task take the buffer first, a task can wait for ever.
- UartRead.IoTUartRead: the port number check is left out, requests are below 2^31, and a run ends when what remains becomes negative.
- FileSeek.File.HalFileSeek: the descriptor is open; an offset whose sum with the position overflows an int is excluded.
- PinIndex.GetPinIndexFromStr: strings whose reading overflows an int before it stops are excluded.
- SpiDevice.SpiCntlr.SpiDevOpen: NULL controller pointers and the bus and device parameters are left out.
- WifiLifecycle.WifiDevice.EnableHotspot: the access point parameters and the wait for an address are left out; API calls run one after another.
- WifiLifecycle.NothingLeaks: in runs LOS_MuxCreate never hands out 2^32 - 8, the one handle LockRoundTrip shows to be lost.
- WifiLifecycle.WifiDevice.WifiLock: waiting for a mutex that exists always succeeds.
- WifiLifecycle.WifiDevice.UnregisterEspEvent: a release counts as done once it is requested, as the code ignores the result.
- WifiListeners.Registry.Send: callbacks that change the registry while it is walked are left out.
- WifiConfigs.ConfigTable.GetDeviceConfigs: the caller's buffer is the sequence of entries stored, so its bound is not checked.
- PwmTimer.Pwm.IoTPwmStart: the duty value passed to the driver is left out; it does not depend on the resolution in a useful way.
- File names: the construction of paths (sHalFileGetPath) is not modelled.
- littlefs mounting and partition lookup: calls into libraries that are not part of this model.
- Bluetooth, scanning, connection details, station lists and signal levels: driver calls and case tables.
- GPIO, I2C, watchdog, low power, reset, update and memory pool code: thin wrappers over library calls.
- Constants from headers outside the repository (table sizes, timer limits, the invalid network id -1, error values): parameters or named constants.
