/** The owner of one descriptor: include/net/socket_handle.hpp. */
module SocketHandleModel {
  import opened Kernel

  class SocketHandle {
    const os: Os
    var handle: int

    /** A handle that is not valid, or one that takes over a descriptor. */
    constructor (os: Os, handle: int := INVALID_HANDLE)
      ensures this.os == os && this.handle == handle
    {
      this.os, this.handle := os, handle;
    }

    /** The move constructor. */
    constructor MovedFrom(other: SocketHandle)
      modifies other
      ensures os == other.os && handle == old(other.handle) && other.handle == INVALID_HANDLE
    {
      os := other.os;
      var taken := other.handle;
      handle := taken;
      new;
      var released := other.Release();
    }

    predicate IsValid()
      reads this
    {
      handle != INVALID_HANDLE
    }

    /** The descriptor this object owns, if any. */
    ghost function Owns(): set<int>
      reads this
    {
      if handle == INVALID_HANDLE then {} else {handle}
    }

    /** The call that closing this object takes, if any. */
    ghost function Closing(): seq<SysCall>
      reads this
    {
      if handle == INVALID_HANDLE then [] else [Closed(handle)]
    }

    method Release() returns (released: int)
      modifies this
      ensures released == old(handle) && handle == INVALID_HANDLE
    {
      released := handle;
      handle := INVALID_HANDLE;
    }

    method Reset(newHandle: int := INVALID_HANDLE)
      requires Owns() <= os.table.open
      modifies this, os`table
      ensures handle == newHandle
      ensures os.table.open == if newHandle == old(handle) then old(os.table.open) else old(os.table.open) - old(Owns())
      ensures os.table.calls == old(os.table.calls) + if newHandle == old(handle) then [] else old(Closing())
    {
      if handle != newHandle {
        Close();
        handle := newHandle;
      }
    }

    /** Also the destructor. */
    method Close()
      requires Owns() <= os.table.open
      modifies this, os`table
      ensures handle == INVALID_HANDLE
      ensures os.table.open == old(os.table.open) - old(Owns()) && os.table.calls == old(os.table.calls) + old(Closing())
    {
      if !IsValid() {
        return;
      }
      var handleToClose := handle;
      handle := INVALID_HANDLE;
      os.Close(handleToClose);
    }

    method MoveAssign(other: SocketHandle)
      requires os == other.os && Owns() <= os.table.open
      modifies this, other, os`table
      ensures other == this ==> unchanged(this) && unchanged(os)
      ensures other != this ==> handle == old(other.handle) && other.handle == INVALID_HANDLE
      ensures other != this ==>
                os.table.open ==
                if old(handle) == old(other.handle) then old(os.table.open) else old(os.table.open) - old(Owns())
      ensures other != this ==>
                os.table.calls == old(os.table.calls) + if old(handle) == old(other.handle) then [] else old(Closing())
    {
      if this != other {
        var taken := other.Release();
        Reset(taken);
      }
    }

    method Swap(other: SocketHandle)
      modifies this, other
      ensures handle == old(other.handle) && other.handle == old(handle)
    {
      handle, other.handle := other.handle, handle;
    }
  }
}
