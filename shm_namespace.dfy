/** The operating system as the storage sees it: the shared-memory namespace
    (a map from name to object), the process's open descriptors, its
    mappings and `errno`. Each system call is a method; whether it fails,
    and with which `errno`, is the `fault` argument the caller passes in.
    A ghost log records every call, in order. */
module ShmNamespace {

  import opened Wrappers
  import opened Layout

  /** The `errno` values the storage reacts to by name; the rest by code. */
  datatype Errno = ENOENT | EEXIST | EOVERFLOW | OtherErrno(code: int)

  /** `ShmHeader`, at offset 0 of every segment. */
  datatype ShmHeader = ShmHeader(magicNum: u64, elementCount: u64, elementSize: u64, alignedFileSize: u64)

  /** Fresh, zero-filled memory, and the value `new (ptr) ShmHeader()` builds. */
  const ZeroHeader := ShmHeader(0, 0, 0, 0)

  /** The header a creator leaves once the segment is ready. */
  function PublishedHeader(count: u64, elemSize: u64, alignedSize: u64): ShmHeader
  {
    ShmHeader(ReadyMagic, count, elemSize, alignedSize)
  }

  /** A named shared-memory object: its size (as set by `ftruncate`) and the
      header at its start. The cells behind the header are not part of it. */
  datatype ShmObject = ShmObject(size: u64, header: ShmHeader)

  /** A mapping of a named object into this process. */
  datatype Mapping = Mapping(name: string, size: u64, hugePages: bool)

  /** One store into the header, or the release fence between stores. */
  datatype HeaderStore =
    | Construct                     // `new (ptr) ShmHeader()`: value-initialised, all zero
    | SetElementCount(n: u64)
    | SetElementSize(n: u64)
    | SetAlignedSize(n: u64)
    | ReleaseFence                  // `atomic_thread_fence(memory_order_release)`
    | SetMagic(m: u64)

  function ApplyStore(h: ShmHeader, s: HeaderStore): ShmHeader
  {
    match s
    case Construct => ZeroHeader
    case SetElementCount(n) => h.(elementCount := n)
    case SetElementSize(n) => h.(elementSize := n)
    case SetAlignedSize(n) => h.(alignedFileSize := n)
    case ReleaseFence => h
    case SetMagic(m) => h.(magicNum := m)
  }

  /** The header after the stores `ss`, in program order. */
  function ApplyStores(h: ShmHeader, ss: seq<HeaderStore>): ShmHeader
    decreases |ss|
  {
    if ss == [] then h else ApplyStore(ApplyStores(h, ss[..|ss| - 1]), ss[|ss| - 1])
  }

  /** What `try_create_new` writes into a fresh header, in program order. */
  function CreatorStores(count: u64, elemSize: u64, alignedSize: u64): (r: seq<HeaderStore>)
    // the magic is stored once, last, right after the release fence
    ensures |r| == 6 && r[5] == SetMagic(ReadyMagic) && r[4] == ReleaseFence
    ensures forall i :: 0 <= i < 5 ==> !r[i].SetMagic?
  {
    [Construct, SetElementCount(count), SetElementSize(elemSize), SetAlignedSize(alignedSize),
     ReleaseFence, SetMagic(ReadyMagic)]
  }

  /** The creator's stores leave the published header, and the magic is written
      last: in every prefix of the stores (every state a peer could read) the
      magic reads ready only if all the other fields already hold their final
      values, and it reads ready in no proper prefix at all. */
  lemma {:induction false} NoEarlyPublish(h0: ShmHeader, count: u64, elemSize: u64, alignedSize: u64)
    requires h0.magicNum != ReadyMagic
    ensures ApplyStores(h0, CreatorStores(count, elemSize, alignedSize)) == PublishedHeader(count, elemSize, alignedSize)
    ensures forall k :: 0 <= k <= 6 ==>
      var h := ApplyStores(h0, CreatorStores(count, elemSize, alignedSize)[..k]);
      (h.magicNum == ReadyMagic <==> k == 6)
  {
    var ss := CreatorStores(count, elemSize, alignedSize);
    assert ss[..0] == [];
    assert ss[..6] == ss;
    var z := ApplyStores(h0, ss[..1]);
    assert z == ZeroHeader by { assert ss[..1][..0] == []; }
    assert ApplyStores(h0, ss[..2]) == ShmHeader(0, count, 0, 0) by { assert ss[..2][..1] == ss[..1]; }
    assert ApplyStores(h0, ss[..3]) == ShmHeader(0, count, elemSize, 0) by { assert ss[..3][..2] == ss[..2]; }
    assert ApplyStores(h0, ss[..4]) == ShmHeader(0, count, elemSize, alignedSize) by { assert ss[..4][..3] == ss[..3]; }
    assert ApplyStores(h0, ss[..5]) == ShmHeader(0, count, elemSize, alignedSize) by { assert ss[..5][..4] == ss[..4]; }
    assert ApplyStores(h0, ss[..6]) == PublishedHeader(count, elemSize, alignedSize) by { assert ss[..6][..5] == ss[..5]; }
  }

  /** The calls the log records. */
  datatype Syscall =
    | OpenExisting(name: string)      // shm_open(name, O_RDWR)
    | OpenExclusive(name: string)     // shm_open(name, O_CREAT | O_EXCL | O_RDWR)
    | Truncate(size: u64)             // ftruncate
    | Map(size: u64, hugePages: bool) // mmap, with MAP_HUGETLB when hugePages
    | Unmap(size: u64)                // munmap
    | CloseFd                         // close
    | Unlink(name: string)            // shm_unlink
    | HeaderWrite(store: HeaderStore) // a store into a mapped header

  /** The log entries of a run of header stores. */
  function HeaderWrites(ss: seq<HeaderStore>): (r: seq<Syscall>)
    ensures |r| == |ss| && forall i :: 0 <= i < |ss| ==> r[i] == HeaderWrite(ss[i])
  {
    seq(|ss|, i requires 0 <= i < |ss| => HeaderWrite(ss[i]))
  }

  class ShmSystem {
    /** The shared-memory namespace. */
    var objects: map<string, ShmObject>
    /** Open descriptors, with the name each was opened by. */
    var fds: map<int, string>
    var nextFd: nat
    /** Live mappings, by address. */
    var mappings: map<nat, Mapping>
    var nextAddr: nat
    var errno: Errno
    ghost var log: seq<Syscall>

    /** Descriptors and addresses handed out so far lie below the next ones. */
    ghost predicate Valid()
      reads this
    {
      && (forall fd :: fd in fds ==> 0 <= fd < nextFd)
      && (forall a :: a in mappings ==> 0 < a <= nextAddr)
    }

    constructor (objects: map<string, ShmObject>)
      ensures Valid()
      ensures this.objects == objects && fds == map[] && mappings == map[] && log == []
    {
      this.objects := objects;
      fds := map[];
      nextFd := 3;
      mappings := map[];
      nextAddr := 0;
      errno := OtherErrno(0);
      log := [];
    }

    /** `shm_open`. With `exclusive` (O_CREAT | O_EXCL) it fails with EEXIST
        when the name exists and otherwise creates an empty object; without it
        it fails with ENOENT when the name does not exist. Past those checks
        it fails as `fault` says. Returns -1 on failure. */
    method ShmOpen(name: string, exclusive: bool, fault: Option<Errno>) returns (fd: int)
      requires Valid()
      modifies this
      ensures Valid()
      ensures log == old(log) + [if exclusive then OpenExclusive(name) else OpenExisting(name)]
      ensures mappings == old(mappings) && nextAddr == old(nextAddr)
      ensures exclusive && name in old(objects) ==> fd == -1 && errno == EEXIST
      ensures !exclusive && name !in old(objects) ==> fd == -1 && errno == ENOENT
      ensures (exclusive <==> name !in old(objects)) && fault.Some? ==> fd == -1 && errno == fault.value
      ensures (exclusive <==> name !in old(objects)) && fault.None? ==>
        && fd == old(nextFd) && fd !in old(fds) && fds == old(fds)[fd := name]
        && errno == old(errno)
        && objects == if exclusive then old(objects)[name := ShmObject(0, ZeroHeader)] else old(objects)
      ensures fd == -1 ==> fds == old(fds) && objects == old(objects)
    {
      log := log + [if exclusive then OpenExclusive(name) else OpenExisting(name)];
      if exclusive && name in objects {
        fd, errno := -1, EEXIST;
      } else if !exclusive && name !in objects {
        fd, errno := -1, ENOENT;
      } else if fault.Some? {
        fd, errno := -1, fault.value;
      } else {
        fd := nextFd;
        fds := fds[fd := name];
        nextFd := nextFd + 1;
        if exclusive {
          objects := objects[name := ShmObject(0, ZeroHeader)];
        }
      }
    }

    /** `ftruncate`: sets the object's size; new bytes read as zero. */
    method Ftruncate(fd: int, size: u64, fault: Option<Errno>) returns (ok: bool)
      requires Valid() && fd in fds && fds[fd] in objects
      modifies this
      ensures Valid()
      ensures log == old(log) + [Truncate(size)]
      ensures fds == old(fds) && mappings == old(mappings) && nextFd == old(nextFd) && nextAddr == old(nextAddr)
      ensures ok == fault.None?
      ensures ok ==> objects == old(objects)[fds[fd] := old(objects)[fds[fd]].(size := size)] && errno == old(errno)
      ensures !ok ==> objects == old(objects) && errno == fault.value
    {
      log := log + [Truncate(size)];
      if fault.Some? {
        ok, errno := false, fault.value;
      } else {
        ok := true;
        objects := objects[fds[fd] := objects[fds[fd]].(size := size)];
      }
    }

    /** `mmap` of the object behind `fd`; with `hugePages` the request carries
        MAP_HUGETLB. Returns the address, or 0 (`MAP_FAILED`) on failure. */
    method Mmap(fd: int, size: u64, hugePages: bool, fault: Option<Errno>) returns (addr: nat)
      requires Valid() && fd in fds
      modifies this
      ensures Valid()
      ensures log == old(log) + [Map(size, hugePages)]
      ensures objects == old(objects) && fds == old(fds) && nextFd == old(nextFd)
      ensures addr == 0 <==> fault.Some?
      ensures addr != 0 ==> addr !in old(mappings) && mappings == old(mappings)[addr := Mapping(fds[fd], size, hugePages)]
      ensures addr != 0 ==> errno == old(errno)
      ensures addr == 0 ==> mappings == old(mappings) && errno == fault.value
    {
      log := log + [Map(size, hugePages)];
      if fault.Some? {
        addr, errno := 0, fault.value;
      } else {
        nextAddr := nextAddr + 1;
        addr := nextAddr;
        mappings := mappings[addr := Mapping(fds[fd], size, hugePages)];
      }
    }

    /** `munmap`. */
    method Munmap(addr: nat, size: u64)
      requires Valid()
      modifies this
      ensures Valid()
      ensures log == old(log) + [Unmap(size)]
      ensures mappings == old(mappings) - {addr}
      ensures objects == old(objects) && fds == old(fds) && nextFd == old(nextFd) && errno == old(errno)
    {
      log := log + [Unmap(size)];
      mappings := mappings - {addr};
    }

    /** `close`. */
    method Close(fd: int)
      requires Valid()
      modifies this
      ensures Valid()
      ensures log == old(log) + [CloseFd]
      ensures fds == old(fds) - {fd}
      ensures objects == old(objects) && mappings == old(mappings) && errno == old(errno)
      ensures nextFd == old(nextFd) && nextAddr == old(nextAddr)
    {
      log := log + [CloseFd];
      fds := fds - {fd};
    }

    /** `shm_unlink`: removes the name; open descriptors and mappings of the
        object stay valid. */
    method ShmUnlink(name: string)
      requires Valid()
      modifies this
      ensures Valid()
      ensures log == old(log) + [Unlink(name)]
      ensures objects == old(objects) - {name}
      ensures fds == old(fds) && mappings == old(mappings) && nextFd == old(nextFd) && nextAddr == old(nextAddr)
      ensures name in old(objects) ==> errno == old(errno)
    {
      log := log + [Unlink(name)];
      if name !in objects {
        errno := ENOENT;
      }
      objects := objects - {name};
    }

    /** A store into the header of the object `name`, through a mapping. */
    method StoreHeader(name: string, s: HeaderStore)
      requires Valid() && name in objects
      modifies this
      ensures Valid()
      ensures log == old(log) + [HeaderWrite(s)]
      ensures objects == old(objects)[name := old(objects)[name].(header := ApplyStore(old(objects)[name].header, s))]
      ensures fds == old(fds) && mappings == old(mappings) && nextFd == old(nextFd) && nextAddr == old(nextAddr)
      ensures errno == old(errno)
    {
      log := log + [HeaderWrite(s)];
      objects := objects[name := objects[name].(header := ApplyStore(objects[name].header, s))];
    }

    /** A peer process wins the creation race: its object appears under `name`
        between this process's calls. */
    method PeerCreates(name: string, obj: ShmObject)
      requires Valid() && name !in objects
      modifies this`objects
      ensures objects == old(objects)[name := obj]
    {
      objects := objects[name := obj];
    }
  }
}
