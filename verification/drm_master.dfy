/** Sharing DRM master between Qt and SDL: a table of SDL's descriptors of the device, and hooks
    that move master between the two open file descriptions. Each hook is one step; the kernel
    is modelled by its table of open files and its current master. */
module DrmMaster {

  const MAX_SDL_FD_COUNT := 8
  const EACCES := -13
  const EBADF := -9

  datatype Option<+T> = None | Some(value: T)

  /** The number of descriptors in a table. */
  function CountOpen(s: seq<int>): (n: nat)
    ensures n <= |s|
  {
    if s == [] then 0 else CountOpen(s[..|s| - 1]) + (if s[|s| - 1] >= 0 then 1 else 0)
  }

  lemma {:induction false} CountAfterUpdate(s: seq<int>, i: nat, v: int)
    requires i < |s|
    ensures CountOpen(s[i := v]) == CountOpen(s) - (if s[i] >= 0 then 1 else 0) + (if v >= 0 then 1 else 0)
    decreases |s|
  {
    var n := |s| - 1;
    if i < n {
      CountAfterUpdate(s[..n], i, v);
      assert s[i := v][..n] == s[..n][i := v];
    } else {
      assert s[i := v][..n] == s[..n];
    }
  }

  lemma {:induction false} CountBounds(s: seq<int>)
    ensures CountOpen(s) == 0 <==> forall i :: 0 <= i < |s| ==> s[i] < 0
    ensures CountOpen(s) == |s| <==> forall i :: 0 <= i < |s| ==> s[i] >= 0
  {
    if s != [] {
      CountBounds(s[..|s| - 1]);
      assert s[|s| - 1] >= 0 || s[|s| - 1] < 0;
      assert forall i :: 0 <= i < |s| - 1 ==> s[..|s| - 1][i] == s[i];
    }
  }

  /** Master belongs to the description that SDL's descriptors share, and with an empty table to
      Qt's; nobody outside the table shares SDL's description. */
  ghost predicate Owned(sdlFds: seq<int>, count: int, qtFd: int, files: map<int, nat>, master: Option<nat>) {
    && (qtFd == -1 ==> count == 0)
    && (qtFd != -1 ==> qtFd in files && qtFd >= 0)
    && (qtFd != -1 && count == 0 ==> master == Some(files[qtFd]))
    && (count > 0 ==>
          && master.Some? && qtFd in files && files[qtFd] != master.value
          && (forall fd :: fd in files ==> (files[fd] == master.value <==> fd in sdlFds)))
  }

  /** An open outside the table moves nothing: there is a master already, or Qt is not known yet. */
  lemma OwnedAfterOpen(s: seq<int>, count: int, qtFd: int, files: map<int, nat>, m: Option<nat>, fd: int, d: nat)
    requires Owned(s, count, qtFd, files, m) && fd !in files && count >= 0
    requires forall f :: f in files ==> files[f] < d
    requires fd !in s
    requires m.Some? ==> exists f :: f in files && files[f] == m.value
    ensures Owned(s, count, qtFd, files[fd := d], if m == None then Some(d) else m)
    ensures qtFd != -1 ==> m.Some? && qtFd in files && files[qtFd] < d
  {
  }

  /** A new description that is not master takes no part. */
  lemma OwnedWithUnrelated(s: seq<int>, count: int, qtFd: int, files: map<int, nat>, m: Option<nat>, fd: int, d: nat)
    requires Owned(s, count, qtFd, files, m) && fd !in files && fd !in s
    requires m.Some? ==> m.value < d
    ensures Owned(s, count, qtFd, files[fd := d], m)
  {
  }

  lemma WhatOwnedMeans(s: seq<int>, count: int, qtFd: int, files: map<int, nat>, master: Option<nat>)
    ensures Owned(s, count, qtFd, files, master) ==>
      && (qtFd != -1 ==> qtFd in files)
      && (qtFd != -1 && count == 0 ==> master == Some(files[qtFd]))
      && (count > 0 ==> forall fd :: fd in files ==> (master == Some(files[fd]) <==> fd in s))
  {
  }

  /** The kernel's master after descriptor fd is gone. */
  ghost function MasterAfterClose(files: map<int, nat>, master: Option<nat>, fd: int): Option<nat> {
    if master.Some? && exists f :: f in files - {fd} && files[f] == master.value then master else None
  }

  /** What closing a descriptor does to ownership: after the last of SDL's there is no master and
      Qt can take it; otherwise nothing moves. */
  lemma OwnedAfterClose(s: seq<int>, s': seq<int>, qtFd: int, files: map<int, nat>, m: Option<nat>, fd: int)
    requires Owned(s, CountOpen(s), qtFd, files, m) && (fd == qtFd ==> fd == -1)
    requires forall f :: f in files ==> f >= 0
    requires forall i :: 0 <= i < |s'| && s'[i] >= 0 ==> s'[i] in files
    requires forall x :: x >= 0 ==> (x in s' <==> x in s && x != fd)
    requires CountOpen(s') == CountOpen(s) - (if fd != -1 && fd in s then 1 else 0)
    requires fd < -1 ==> fd !in s
    ensures var m' := MasterAfterClose(files, m, fd);
      if fd != -1 && fd in s && CountOpen(s') == 0
      then m' == None && qtFd in files && Owned(s', 0, qtFd, files - {fd}, Some(files[qtFd]))
      else Owned(s', CountOpen(s'), qtFd, files - {fd}, m') && (CountOpen(s') > 0 ==> m' == m)
  {
    CountBounds(s);
    CountBounds(s');
    var files' := files - {fd};
    if CountOpen(s') > 0 {
      var k :| 0 <= k < |s'| && s'[k] >= 0;
      assert s'[k] in s' && s'[k] in s;
      assert s'[k] in files' && files[s'[k]] == m.value;
    } else if fd != -1 && fd in s {
      assert forall x :: x in s' ==> x < 0;
      assert forall f :: f in files' ==> f !in s;
    } else if qtFd != -1 {
      assert qtFd in files' && files[qtFd] == m.value;
    }
  }

  /** Without Qt's descriptor, SDL's keep master, or nobody of the two has it. */
  lemma OwnedWithoutQt(s: seq<int>, qtFd: int, files: map<int, nat>, m: Option<nat>)
    requires Owned(s, CountOpen(s), qtFd, files, m) && qtFd != -1
    requires forall i :: 0 <= i < |s| && s[i] >= 0 ==> s[i] in files && s[i] != qtFd
    ensures qtFd in files
    ensures CountOpen(s) > 0 ==>
      && MasterAfterClose(files, m, qtFd) == m
      && forall f :: f in files - {qtFd} ==> (m == Some(files[f]) <==> f in s)
  {
    CountBounds(s);
    if CountOpen(s) > 0 {
      var k :| 0 <= k < |s| && s[k] >= 0;
      assert s[k] in files - {qtFd} && files[s[k]] == m.value;
    }
  }

  class Hooks {
    /** SDL's descriptors; a free slot holds -1. */
    const sdlFds: array<int>
    var sdlFdCount: int
    var qtFd: int

    // The kernel: open files, each with the description it refers to, and the description that
    // is DRM master.
    var files: map<int, nat>
    var master: Option<nat>
    var nextDescription: nat

    constructor ()
      ensures Inv() && fresh(sdlFds) && qtFd == -1 && sdlFdCount == 0 && files == map[]
    {
      sdlFds := new int[MAX_SDL_FD_COUNT](_ => -1);
      sdlFdCount, qtFd := 0, -1;
      files, master, nextDescription := map[], None, 0;
      new;
      CountBounds(sdlFds[..]);
    }

    /** The table: descriptors are open, distinct and not Qt's, and the counter counts them. */
    ghost predicate TableOk()
      reads this`sdlFdCount, this`files, this`qtFd, sdlFds
    {
      && sdlFds.Length == MAX_SDL_FD_COUNT
      && sdlFdCount == CountOpen(sdlFds[..])
      && (forall i :: 0 <= i < sdlFds.Length ==> sdlFds[i] >= -1)
      && (forall i, j :: 0 <= i < j < sdlFds.Length && sdlFds[i] >= 0 ==> sdlFds[i] != sdlFds[j])
      && (forall i :: 0 <= i < sdlFds.Length && sdlFds[i] >= 0 ==> sdlFds[i] in files && sdlFds[i] != qtFd)
    }

    ghost predicate KernelOk()
      reads this`files, this`master, this`nextDescription
    {
      && (forall fd :: fd in files ==> fd >= 0 && files[fd] < nextDescription)
      && (master.Some? ==> exists fd :: fd in files && files[fd] == master.value)
    }

    ghost predicate OwnershipOk()
      reads this`sdlFdCount, this`qtFd, this`files, this`master, sdlFds
    {
      Owned(sdlFds[..], sdlFdCount, qtFd, files, master)
    }

    ghost predicate Inv()
      reads this, sdlFds
    {
      TableOk() && KernelOk() && OwnershipOk()
    }

    // ----- the kernel -----

    predicate IsMaster(fd: int)
      reads this
    {
      fd in files && master == Some(files[fd])
    }

    /** Opening the device makes a new description, which becomes master if there is none. */
    method KernelOpen(fd: int)
      requires fd >= 0 && fd !in files && KernelOk()
      modifies this`files, this`master, this`nextDescription
      ensures files == old(files)[fd := old(nextDescription)] && nextDescription == old(nextDescription) + 1
      ensures master == if old(master) == None then Some(old(nextDescription)) else old(master)
      ensures KernelOk()
    {
      files := files[fd := nextDescription];
      if master == None {
        master := Some(nextDescription);
        assert fd in files && files[fd] == master.value;
      } else {
        ghost var holder :| holder in old(files) && old(files)[holder] == master.value;
        assert holder in files && files[holder] == master.value;
      }
      nextDescription := nextDescription + 1;
    }

    /** Closing the last descriptor of a description ends its mastership. */
    method KernelClose(fd: int) returns (ret: int)
      requires KernelOk()
      modifies this`files, this`master
      ensures KernelOk() && (ret == 0 <==> fd in old(files)) && (ret == 0 || ret == -1)
      ensures files == old(files) - {fd}
      ensures master == MasterAfterClose(old(files), old(master), fd)
    {
      if fd !in files {
        assert files - {fd} == files;
        return -1;
      }
      files := files - {fd};
      if master.Some? && forall f | f in files :: files[f] != master.value {
        master := None;
      }
      ret := 0;
    }

    method KernelDup(fd: int, newFd: int)
      requires fd in files && newFd >= 0 && newFd !in files && KernelOk()
      modifies this`files
      ensures files == old(files)[newFd := old(files)[fd]] && KernelOk()
    {
      ghost var before := files;
      files := files[newFd := files[fd]];
      if master.Some? {
        ghost var holder :| holder in before && before[holder] == master.value;
        assert holder in files && files[holder] == master.value;
      }
    }

    method DrmDropMaster(fd: int) returns (ret: int)
      modifies this`master
      ensures old(KernelOk()) ==> KernelOk()
      ensures ret == 0 <==> old(IsMaster(fd))
      ensures master == if ret == 0 then None else old(master)
    {
      if IsMaster(fd) {
        master := None;
        ret := 0;
      } else {
        ret := -1;
      }
    }

    method DrmSetMaster(fd: int) returns (ret: int)
      modifies this`master
      ensures old(KernelOk()) ==> KernelOk()
      ensures ret == 0 <==> fd in files && (old(master) == None || old(IsMaster(fd)))
      ensures master == if ret == 0 then Some(files[fd]) else old(master)
    {
      if fd in files && (master == None || IsMaster(fd)) {
        master := Some(files[fd]);
        ret := 0;
      } else {
        ret := -1;
      }
    }

    // ----- the table -----

    /** The first free or used slot, or -1. */
    method GetSdlFdEntryIndex(unused: bool) returns (index: int)
      requires sdlFds.Length == MAX_SDL_FD_COUNT
      ensures -1 <= index < sdlFds.Length
      ensures index >= 0 ==> (sdlFds[index] < 0 <==> unused)
      ensures forall k :: 0 <= k < (if index >= 0 then index else sdlFds.Length) ==> (sdlFds[k] < 0 <==> !unused)
    {
      for i := 0 to MAX_SDL_FD_COUNT
        invariant forall k :: 0 <= k < i ==> (sdlFds[k] < 0 <==> !unused)
      {
        if unused && sdlFds[i] < 0 {
          return i;
        } else if !unused && sdlFds[i] >= 0 {
          return i;
        }
      }
      index := -1;
    }

    method ClearSlot(slot: nat)
      requires TableOk() && slot < sdlFds.Length && sdlFds[slot] >= 0
      modifies this`sdlFdCount, sdlFds
      ensures TableOk() && sdlFdCount == old(sdlFdCount) - 1 && sdlFds[..] == old(sdlFds[..])[slot := -1]
      ensures forall x :: x >= 0 ==> (x in sdlFds[..] <==> x in old(sdlFds[..]) && x != old(sdlFds[slot]))
    {
      CountAfterUpdate(sdlFds[..], slot, -1);
      WithoutSlot(sdlFds[..], slot);
      sdlFds[slot] := -1;
      sdlFdCount := sdlFdCount - 1;
      assert sdlFds[..] == old(sdlFds[..])[slot := -1];
    }

    /** Forgets fd; true exactly when that took the last descriptor out of the table. */
    method RemoveSdlFd(fd: int) returns (last: bool)
      requires TableOk()
      modifies this`sdlFdCount, sdlFds
      ensures TableOk()
      ensures old(fd != -1 && fd in sdlFds[..]) ==>
        exists i :: 0 <= i < sdlFds.Length && old(sdlFds[i]) == fd && sdlFds[..] == old(sdlFds[..])[i := -1]
      ensures !old(fd != -1 && fd in sdlFds[..]) ==> sdlFds[..] == old(sdlFds[..]) && sdlFdCount == old(sdlFdCount)
      ensures sdlFdCount == old(sdlFdCount) - (if old(fd != -1 && fd in sdlFds[..]) then 1 else 0)
      ensures last <==> old(sdlFdCount) == 1 && sdlFdCount == 0
      ensures forall x :: x >= 0 ==> (x in sdlFds[..] <==> x in old(sdlFds[..]) && x != fd)
    {
      if fd == -1 {
        return false;
      }
      if sdlFdCount != 0 {
        var i := 0;
        while i < MAX_SDL_FD_COUNT
          invariant 0 <= i <= MAX_SDL_FD_COUNT && TableOk()
          invariant sdlFds[..] == old(sdlFds[..]) && sdlFdCount == old(sdlFdCount)
          invariant forall k :: 0 <= k < i ==> sdlFds[k] != fd
        {
          if fd == sdlFds[i] {
            ClearSlot(i);
            break;
          }
          i := i + 1;
        }
        if sdlFdCount == 0 {
          return true;
        }
      } else {
        CountBounds(sdlFds[..]);
      }
      last := false;
    }

    /** Drops master on an SDL descriptor and returns it, or -1 if there is none. */
    method TakeMasterFromSdlFd() returns (fd: int)
      requires Inv()
      modifies this`master
      ensures old(sdlFdCount) == 0 ==> fd == -1 && master == old(master)
      ensures old(sdlFdCount) > 0 ==> fd in sdlFds[..] && fd >= 0 && Some(files[fd]) == old(master) && master == None
    {
      CountBounds(sdlFds[..]);
      fd := -1;
      var fdIndex := GetSdlFdEntryIndex(false);
      if fdIndex != -1 {
        fd := sdlFds[fdIndex];
      }
      if fd >= 0 {
        assert fd in sdlFds[..];
        var ret := DrmDropMaster(fd);
        if ret != 0 {
          fd := -1;
        }
      }
    }

    // ----- the hooks -----

    /** Opening anything but the device: its description takes no part in mastership. */
    method OpenUnrelated(fd: int)
      requires Inv() && fd >= 0 && fd !in files
      modifies this`files, this`nextDescription
      ensures Inv() && files == old(files)[fd := old(nextDescription)]
    {
      hide Owned, CountOpen;
      ghost var before := files;
      OwnedWithUnrelated(sdlFds[..], sdlFdCount, qtFd, files, master, fd, nextDescription);
      files := files[fd := nextDescription];
      nextDescription := nextDescription + 1;
      if master.Some? {
        ghost var holder :| holder in before && before[holder] == master.value;
        assert holder in files && files[holder] == master.value;
      }
    }

    /** The first DRM master that sets a mode or commits is Qt's descriptor. */
    method Capture(fd: int)
      requires Inv()
      modifies this`qtFd
      ensures Inv()
      ensures qtFd == if old(qtFd) == -1 && IsMaster(fd) then fd else old(qtFd)
    {
      CountBounds(sdlFds[..]);
      if qtFd == -1 && IsMaster(fd) {
        qtFd := fd;
      }
    }

    /** Opening the device with Qt's description captured: SDL's descriptor shares the description
        of the others, or takes master over from Qt if it is the first. fd and fd2 are the
        descriptors the kernel chooses for the probing open and for the final one. */
    method OpenHook(fd: int, fd2: int) returns (result: int)
      requires Inv() && fd >= 0 && fd !in files && fd2 >= 0 && fd2 !in files
      modifies this`files, this`master, this`nextDescription, this`sdlFdCount, sdlFds
      ensures Inv() && result in files
      ensures old(qtFd == -1 || sdlFdCount == 8) ==>
        && result == fd && sdlFds[..] == old(sdlFds[..]) && files == old(files)[fd := old(nextDescription)]
        && master == if old(master) == None then Some(old(nextDescription)) else old(master)
      ensures !old(qtFd == -1 || sdlFdCount == 8) ==>
        && result == fd2 && IsMaster(result) && !IsMaster(qtFd)
        && sdlFdCount == old(sdlFdCount) + 1
        && fd2 in files && files == old(files)[fd2 := files[fd2]]
        && (old(sdlFdCount) > 0 ==> master == old(master))
        && exists i :: 0 <= i < sdlFds.Length && old(sdlFds[i]) == -1 && sdlFds[..] == old(sdlFds[..])[i := fd2]
    {
      hide Owned, MasterAfterClose;
      CountBounds(sdlFds[..]);
      OwnedAfterOpen(sdlFds[..], sdlFdCount, qtFd, files, master, fd, nextDescription);
      KernelOpen(fd);
      if qtFd == -1 {
        return fd;
      }
      result := ShareDevice(fd, fd2, old(files));
    }

    /** The part of the hook that runs when the file just opened as fd is Qt's device. */
    method ShareDevice(fd: int, fd2: int, ghost before: map<int, nat>) returns (result: int)
      requires Inv() && qtFd != -1 && fd >= 0 && fd !in sdlFds[..] && fd != qtFd && fd2 >= 0
      requires fd !in before && fd2 !in before && fd in files && files == before[fd := files[fd]]
      requires qtFd in before && !IsMaster(fd) && files[fd] != files[qtFd]
      modifies this`files, this`master, this`nextDescription, this`sdlFdCount, sdlFds
      ensures Inv() && result in files
      ensures old(sdlFdCount) == 8 ==>
        result == fd && sdlFds[..] == old(sdlFds[..]) && files == old(files) && master == old(master)
      ensures old(sdlFdCount) < 8 ==>
        && result == fd2 && IsMaster(result) && !IsMaster(qtFd)
        && sdlFdCount == old(sdlFdCount) + 1
        && fd2 in files && files == before[fd2 := files[fd2]]
        && (old(sdlFdCount) > 0 ==> master == old(master))
        && exists i :: 0 <= i < sdlFds.Length && old(sdlFds[i]) == -1 && sdlFds[..] == old(sdlFds[..])[i := fd2]
    {
      hide Owned, MasterAfterClose, KernelOk, CountOpen;
      CountBounds(sdlFds[..]);
      var freeFdIndex := GetSdlFdEntryIndex(true);
      if freeFdIndex < 0 {
        return fd;
      }
      var allocatedFdIndex := GetSdlFdEntryIndex(false);
      if allocatedFdIndex >= 0 {
        CloseUnlisted(fd);
        assert files == before;
        AddShared(fd2, freeFdIndex, sdlFds[allocatedFdIndex]);
      } else {
        assert files - {fd} == before;
        AddFirst(fd, fd2, freeFdIndex);
      }
      result := fd2;
    }

    /** The probing descriptor goes, past the hook. */
    method CloseUnlisted(fd: int)
      requires Inv() && fd >= 0 && fd !in sdlFds[..] && fd != qtFd && sdlFdCount > 0
      modifies this`files, this`master
      ensures Inv() && files == old(files) - {fd} && master == old(master)
    {
      hide Owned, CountOpen, MasterAfterClose;
      TableFacts();
      OwnedAfterClose(sdlFds[..], sdlFds[..], qtFd, files, master, fd);
      var closed := KernelClose(fd);
      forall i | 0 <= i < sdlFds.Length && sdlFds[i] >= 0 ensures sdlFds[i] in files {
        assert sdlFds[i] in sdlFds[..];
      }
    }

    /** A descriptor goes into a free slot. */
    method Insert(fd: int, slot: nat)
      requires TableOk() && slot < sdlFds.Length && sdlFds[slot] == -1
      requires fd >= 0 && fd in files && fd !in sdlFds[..] && fd != qtFd
      modifies this`sdlFdCount, sdlFds
      ensures TableOk() && sdlFdCount == old(sdlFdCount) + 1 && sdlFds[..] == old(sdlFds[..])[slot := fd]
    {
      CountAfterUpdate(sdlFds[..], slot, fd);
      sdlFds[slot] := fd;
      sdlFdCount := sdlFdCount + 1;
      assert sdlFds[..] == old(sdlFds[..])[slot := fd];
    }

    /** Another descriptor of the description that is already master. */
    method AddShared(fd2: int, slot: nat, fd: int)
      requires Inv() && sdlFdCount > 0 && fd >= 0 && fd in sdlFds[..]
      requires slot < sdlFds.Length && sdlFds[slot] == -1 && fd2 >= 0 && fd2 !in files
      modifies this`files, this`master, this`sdlFdCount, sdlFds
      ensures Inv() && IsMaster(fd2) && !IsMaster(qtFd) && master == old(master)
      ensures fd2 in files && files == old(files)[fd2 := files[fd2]]
      ensures sdlFdCount == old(sdlFdCount) + 1 && sdlFds[..] == old(sdlFds[..])[slot := fd2]
    {
      KernelDup(fd, fd2);
      var ret := DrmSetMaster(fd2);
      Insert(fd2, slot);
      InSlot(old(sdlFds[..]), slot, fd2);
    }

    /** SDL's first descriptor: Qt drops master, and a new description picks it up. */
    method AddFirst(fd: int, fd2: int, slot: nat)
      requires Inv() && qtFd != -1 && sdlFdCount == 0 && fd in files && files[fd] != files[qtFd]
      requires slot < sdlFds.Length && sdlFds[slot] == -1 && fd2 >= 0 && fd2 !in files - {fd} && fd2 != qtFd
      modifies this`files, this`master, this`nextDescription, this`sdlFdCount, sdlFds
      ensures Inv() && IsMaster(fd2) && !IsMaster(qtFd)
      ensures fd2 in files && files == (old(files) - {fd})[fd2 := files[fd2]]
      ensures sdlFdCount == 1 && sdlFds[..] == old(sdlFds[..])[slot := fd2]
    {
      hide CountOpen, KernelOk;
      TableFacts();
      CountBounds(sdlFds[..]);
      var dropped := DrmDropMaster(qtFd);
      var closed := KernelClose(fd);
      KernelOpen(fd2);
      var ret := DrmSetMaster(fd2);
      Insert(fd2, slot);
      InSlot(old(sdlFds[..]), slot, fd2);
    }

    static lemma WithoutSlot(s: seq<int>, slot: nat)
      requires slot < |s| && s[slot] >= 0
      requires forall i, j :: 0 <= i < j < |s| && s[i] >= 0 ==> s[i] != s[j]
      ensures forall x :: x >= 0 ==> (x in s[slot := -1] <==> x in s && x != s[slot])
    {
      var t := s[slot := -1];
      forall x | x >= 0 && x in s && x != s[slot] ensures x in t {
        var k :| 0 <= k < |s| && s[k] == x;
        assert t[k] == x;
      }
      forall x | x >= 0 && x in t ensures x in s && x != s[slot] {
        var k :| 0 <= k < |s| && t[k] == x;
        assert s[k] == x;
      }
    }

    static lemma InSlot(s: seq<int>, slot: nat, fd: int)
      requires slot < |s| && s[slot] == -1
      ensures forall x :: x >= 0 ==> (x in s[slot := fd] <==> x in s || x == fd)
    {
      forall x | x >= 0 && x in s ensures x in s[slot := fd] {
        var k :| 0 <= k < |s| && s[k] == x;
        assert s[slot := fd][k] == x;
      }
      assert s[slot := fd][slot] == fd;
    }

    /** The real call fails without master; the hook then borrows master for one retry. */
    method PageFlip(fd: int) returns (err: int)
      requires Inv()
      modifies this`master
      ensures Inv() && master == old(master)
      ensures err == if IsMaster(fd) || (fd == qtFd && qtFd != -1) then 0 else if fd in files then -13 else -9
    {
      hide TableOk, KernelOk, CountOpen;
      TableFacts();
      err := RealFlip(fd);
      if err == EACCES && fd == qtFd {
        var oldMasterFd := TakeMasterFromSdlFd();
        var set1 := DrmSetMaster(fd);
        err := RealFlip(fd);
        var dropped := DrmDropMaster(fd);
        if oldMasterFd != -1 {
          var set2 := DrmSetMaster(oldMasterFd);
        }
      }
    }

    /** drmModePageFlip or drmModeAtomicCommit in the kernel */
    method RealFlip(fd: int) returns (err: int)
      ensures err == if fd !in files then EBADF else if IsMaster(fd) then 0 else EACCES
    {
      if fd !in files {
        return EBADF;
      }
      err := if IsMaster(fd) then 0 else EACCES;
    }

    method AtomicCommit(fd: int) returns (err: int)
      requires Inv()
      modifies this`qtFd, this`master
      ensures Inv() && master == old(master)
      ensures qtFd == if old(qtFd) == -1 && IsMaster(fd) then fd else old(qtFd)
      ensures err == if IsMaster(fd) || (fd == qtFd && qtFd != -1) then 0 else if fd in files then -13 else -9
    {
      Capture(fd);
      err := PageFlip(fd);
    }

    /** The one call that breaks the invariant. */
    predicate IsQtFd(fd: int)
      reads this`qtFd
    {
      fd == qtFd && qtFd != -1
    }

    lemma TableFacts()
      requires Inv()
      ensures sdlFdCount == CountOpen(sdlFds[..]) >= 0
      ensures forall f :: f in files ==> f >= 0
      ensures forall x :: x in sdlFds[..] ==> x >= -1 && (x >= 0 ==> x in files && x != qtFd)
    {
      hide Owned;
    }

    /** Removes fd from the table and closes it. */
    method RemoveAndClose(fd: int) returns (last: bool, ret: int)
      requires TableOk() && KernelOk()
      modifies this`files, this`master, this`sdlFdCount, sdlFds
      ensures TableOk() && KernelOk() && sdlFdCount == CountOpen(sdlFds[..])
      ensures (ret == 0 <==> fd in old(files)) && files == old(files) - {fd}
      ensures master == MasterAfterClose(old(files), old(master), fd)
      ensures !old(fd != -1 && fd in sdlFds[..]) ==> sdlFds[..] == old(sdlFds[..])
      ensures sdlFdCount == old(sdlFdCount) - (if old(fd != -1 && fd in sdlFds[..]) then 1 else 0)
      ensures last <==> old(sdlFdCount) == 1 && sdlFdCount == 0
      ensures forall x :: x >= 0 ==> (x in sdlFds[..] <==> x in old(sdlFds[..]) && x != fd)
    {
      hide CountOpen, MasterAfterClose;
      last := RemoveSdlFd(fd);
      ret := KernelClose(fd);
      forall i | 0 <= i < sdlFds.Length && sdlFds[i] >= 0 ensures sdlFds[i] in files {
        assert sdlFds[i] in sdlFds[..];
      }
    }

    /** Closing SDL's last descriptor gives master back to Qt; closing anything else moves nothing.
        When Qt's own descriptor is closed, which the hook does not notice, the captured number
        no longer names an open file and SDL keeps what it has. */
    method Close(fd: int) returns (ret: int)
      requires Inv()
      modifies this`files, this`master, this`sdlFdCount, sdlFds
      ensures Inv() <==> !IsQtFd(fd)
      ensures TableOk() && KernelOk()
      ensures (ret == 0 <==> fd in old(files)) && files == old(files) - {fd}
      ensures fd in old(sdlFds[..]) && fd != -1 ==> sdlFdCount == old(sdlFdCount) - 1
      ensures !(fd in old(sdlFds[..]) && fd != -1) ==> sdlFds[..] == old(sdlFds[..]) && sdlFdCount == old(sdlFdCount)
      ensures !IsQtFd(fd) && qtFd != -1 && sdlFdCount == 0 ==> IsMaster(qtFd)
      ensures sdlFdCount > 0 ==> master == old(master) && forall f :: f in files ==> (IsMaster(f) <==> f in sdlFds[..])
    {
      hide Owned, CountOpen, MasterAfterClose, TableOk, KernelOk;
      TableFacts();
      ghost var table, before, m := sdlFds[..], files, master;
      var lastSdlFd;
      lastSdlFd, ret := RemoveAndClose(fd);
      if IsQtFd(fd) {
        OwnedWithoutQt(table, qtFd, before, m);
      } else {
        OwnedAfterClose(table, sdlFds[..], qtFd, before, m, fd);
      }
      if ret == 0 && lastSdlFd {
        var err := DrmSetMaster(qtFd);
      }
      WhatOwnedMeans(sdlFds[..], sdlFdCount, qtFd, files, master);
    }
  }

  // ----- runs -----

  /** The calls of a run, with the descriptors that the kernel chooses. */
  datatype Event =
    | OpenDevice(fd: int, fd2: int)
    | OpenOther(fd: int)
    | SetCrtc(fd: int)
    | Flip(fd: int)
    | Commit(fd: int)
    | CloseFd(fd: int)

  /** One call; the kernel never hands out a descriptor that is in use. Every call keeps the
      invariant, but for a close of Qt's own descriptor. */
  method Step(h: Hooks, e: Event)
    requires h.Inv()
    modifies h, h.sdlFds
    ensures h.Inv() <==> !(e.CloseFd? && h.IsQtFd(e.fd))
    ensures h.qtFd == old(h.qtFd) || (old(h.qtFd) == -1 && (e.SetCrtc? || e.Commit?) && h.qtFd == e.fd)
    ensures match e
      case OpenDevice(fd, fd2) =>
        fd >= 0 && fd !in old(h.files) && fd2 >= 0 && fd2 !in old(h.files) ==>
          if h.qtFd == -1 || old(h.sdlFdCount) == 8 then h.sdlFdCount == old(h.sdlFdCount)
          else h.sdlFdCount == old(h.sdlFdCount) + 1 && h.IsMaster(fd2)
      case CloseFd(fd) =>
        && h.files == old(h.files) - {fd}
        && (fd in old(h.sdlFds[..]) && fd != -1 ==> h.sdlFdCount == old(h.sdlFdCount) - 1)
        && (!(fd in old(h.sdlFds[..]) && fd != -1) ==> h.sdlFds[..] == old(h.sdlFds[..]))
      case Flip(_) => h.master == old(h.master) && h.files == old(h.files)
      case Commit(_) => h.master == old(h.master) && h.files == old(h.files)
      case SetCrtc(_) => h.master == old(h.master) && h.files == old(h.files)
      case OpenOther(_) => h.master == old(h.master)
  {
    match e
    case OpenDevice(fd, fd2) =>
      if fd >= 0 && fd !in h.files && fd2 >= 0 && fd2 !in h.files {
        var result := h.OpenHook(fd, fd2);
      }
    case OpenOther(fd) =>
      if fd >= 0 && fd !in h.files {
        h.OpenUnrelated(fd);
      }
    case SetCrtc(fd) => h.Capture(fd);
    case Flip(fd) => var err := h.PageFlip(fd);
    case Commit(fd) => var err := h.AtomicCommit(fd);
    case CloseFd(fd) => var ret := h.Close(fd);
  }

  /** After any run, up to a close of Qt's own descriptor: the counter counts, descriptors are
      distinct, and master is SDL's description while it has a descriptor and Qt's otherwise.
      Returns how many events came before that close. */
  method Run(h: Hooks, events: seq<Event>) returns (n: nat)
    requires h.Inv()
    modifies h, h.sdlFds
    ensures h.Inv() && n <= |events|
    ensures n < |events| ==> events[n].CloseFd? && h.IsQtFd(events[n].fd)
    ensures h.qtFd != -1 ==>
      if h.sdlFdCount == 0 then h.IsMaster(h.qtFd)
      else !h.IsMaster(h.qtFd) && forall fd :: fd in h.files ==> (h.IsMaster(fd) <==> fd in h.sdlFds[..])
  {
    n := 0;
    while n < |events| && !(events[n].CloseFd? && h.IsQtFd(events[n].fd))
      invariant h.Inv() && n <= |events|
    {
      Step(h, events[n]);
      n := n + 1;
    }
  }
}
