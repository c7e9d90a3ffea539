/** From a blank drive to a volume in use: format, mount, and any run of the allocator. */
module FatReady {
  import opened FatCodec
  import opened Volumes
  import opened Chains
  import opened FatMount
  import opened FatFormat
  import opened FatRuns
  import OpenFiles

  lemma SecondFatOnDrive(g: Geometry, sectors: seq<Sector>)
    requires ViewOk(g, sectors) && g.nFats == 2
    ensures g.fatBase + 2 * g.fSize <= |sectors|
  {
  }

  /** The volume object of a drive that was mounted. */
  method Attach(sectors: seq<Sector>, fs: Mounted) returns (vol: Volume)
    requires ViewOk(fs.g, sectors) && |sectors| <= NO_SECTOR
    ensures fresh(vol) && fresh(vol.win) && vol.Valid() && vol.g == fs.g
    ensures vol.view == sectors && vol.tab == TabOf(fs.g, sectors) && vol.freeClst == fs.freeClst && vol.winsect == NO_SECTOR
  {
    var fat2 := [];
    if fs.g.nFats == 2 {
      SecondFatOnDrive(fs.g, sectors);
      fat2 := sectors[fs.g.fatBase + fs.g.fSize..fs.g.fatBase + 2 * fs.g.fSize];
    }
    vol := new Volume(fs.g, sectors, fat2, fs.freeClst, fs.lastClst);
  }

  lemma NewAccount(tab: seq<nat>)
    requires RootOnly(tab)
    ensures Accounts(tab, [[2]]) == true && |FreeSet(tab)| == |tab| - 3
  {
    RootAccounts(tab);
    Conserved(tab, [[2]]);
  }

  /**
   A formatted and mounted drive is a volume in order: one file, the root directory, owns the one cluster in use, and
   the free count is right if the FSInfo sector could be written.
   */
  method FormatToUse(drive: Drive, total: nat, vsn: nat) returns (vol: Volume?, noted: bool)
    requires drive.Valid() && total < U32 && vsn < U32 && total <= |drive.sectors| <= NO_SECTOR
    modifies drive
    ensures vol != null ==> fresh(vol) && fresh(vol.win) && vol.Valid() && vol.g.fsType == Fat32
    ensures vol != null ==> vol.view == drive.sectors && Accounts(vol.tab, [[2]]) && vol.winsect == NO_SECTOR
    ensures vol != null && noted ==> vol.freeClst == |FreeSet(vol.tab)| == vol.g.nFatent - 3
  {
    var ok, p, r;
    ok, p, r, noted := FormatThenMount(drive, total, vsn);
    vol := null;
    if !ok { return; }
    ghost var tab := TabOf(r.fs.g, drive.sectors);
    NewAccount(tab);
    vol := Attach(drive.sectors, r.fs);
  }

  /**
   Every run of the allocator on a new volume, with what it leaves of the root directory and the files. Its accounts are
   then in order, so that all of them can be opened.
   */
  method FormatThenRun(drive: Drive, total: nat, vsn: nat, ops: seq<AllocOp>)
    returns (failed: bool, vol: Volume?, files: seq<seq<nat>>, ghost hist: seq<seq<seq<nat>>>, noted: bool)
    requires drive.Valid() && total < U32 && vsn < U32 && total <= |drive.sectors| <= NO_SECTOR
    modifies drive
    ensures vol != null && noted && !failed ==>
              && vol.Valid() && History(hist, vol.g.nFatent - 2, ops) && hist[0] == [[2]] && hist[|ops|] == files
              && OpenFiles.Accounted(vol, files) && vol.freeClst == |FreeSet(vol.tab)|
              && vol.freeClst + Total(files) == vol.g.nFatent - 2
  {
    failed, files, hist := true, [], [];
    vol, noted := FormatToUse(drive, total, vsn);
    if vol == null || !noted { return; }
    failed, files, hist := Run(vol, [[2]], ops);
  }
}
