/** `SharedDataView<T>`: the typed window onto a mapped segment. It remembers
    where cell 0 starts (just past the header) and gives locked access to one
    cell at a time.

    The cells of the mapped memory are `cells`, one `PaddedValue` object per
    slot; which process's mapping they belong to is not modelled. The
    accessor the caller passes is a function from the old value (and, in the
    danger-aware shape, the danger flag) to the new value. */
module DataView {

  import opened Layout
  import opened SpinLock

  class SharedDataView<T> {
    /** `sizeof(PaddedValue<T>)`. */
    const cellSize: nat
    /** `data_ptr`, as an address; 0 is `nullptr`. */
    var dataAddr: nat
    /** The slots `data_ptr[0]`, `data_ptr[1]`, ... of the mapped memory. */
    var cells: seq<PaddedValue<T>>

    constructor (cellSize: nat, cells: seq<PaddedValue<T>>)
      ensures this.cellSize == cellSize && dataAddr == 0 && this.cells == cells
    {
      this.cellSize := cellSize;
      dataAddr := 0;
      this.cells := cells;
    }

    /** `init(base_addr)`: cell 0 starts right after the header. */
    method Init(baseAddr: nat)
      modifies this`dataAddr
      ensures dataAddr == baseAddr + HeaderSize
    {
      dataAddr := baseAddr + HeaderSize;
    }

    /** The address of `data_ptr[i]`: the segment's base plus the layout's
        offset of cell `i`. */
    function CellAddress(i: nat): (a: nat)
      reads this
      requires dataAddr >= HeaderSize
      ensures a == (dataAddr - HeaderSize) + CellOffset(i, cellSize)
      ensures a >= dataAddr
    {
      dataAddr + i * cellSize
    }

    /** `dangerous_access(idx, accesser)` with an accessor that takes the danger
        flag: lock the cell, run the accessor once on its value with
        `is_dangerous` set exactly when `lock()` gave up, then unlock. The
        source does not check `idx`; the model requires it in range. */
    method DangerousAccess(idx: nat, accessor: (T, bool) -> T, peer: seq<bool>) returns (isDangerous: bool)
      requires idx < |cells|
      modifies cells[idx]
      ensures isDangerous == !LockSpec(old(cells[idx].busyFlag), peer).acquired
      ensures cells[idx].value == accessor(old(cells[idx].value), isDangerous)
      ensures !cells[idx].busyFlag
    {
      var cell := cells[idx];
      var acquired, _ := cell.Lock(peer);
      isDangerous := !acquired;
      cell.value := accessor(cell.value, isDangerous);
      cell.Unlock();
    }

    /** `dangerous_access(idx, accesser)` with an accessor that takes only the
        value: the result of `lock()` is ignored, so a forced entry is not
        reported to the accessor. */
    method DangerousAccessUnflagged(idx: nat, accessor: T -> T, peer: seq<bool>)
      requires idx < |cells|
      modifies cells[idx]
      ensures cells[idx].value == accessor(old(cells[idx].value))
      ensures !cells[idx].busyFlag
    {
      var cell := cells[idx];
      var _, _ := cell.Lock(peer);
      cell.value := accessor(cell.value);
      cell.Unlock();
    }
  }
}
