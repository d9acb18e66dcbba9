/** Machine-owned guest memory behind the narrow byte interface of the BIOS services. */
module GuestMemory {
  import opened Machine
  import opened LittleEndian

  /**
   * Bytes indexed by guest address. Addresses from `first` up to the array length are accessible.
   * `refusals` lists the accesses the machine will refuse although they are in range, so every
   * pattern of write failures the interface allows can occur.
   */
  class GuestRam {
    const bytes: array<u8>
    const first: nat
    var refusals: seq<bool>

    constructor (size: u32, first: nat, refusals: seq<bool>)
      requires first <= size
      ensures Valid() && fresh(bytes)
      ensures bytes.Length == size && this.first == first && this.refusals == refusals
    {
      bytes := new u8[size](_ => 0);
      this.first, this.refusals := first, refusals;
    }

    ghost predicate Valid()
    {
      first <= bytes.Length < U32_LIMIT
    }

    ghost function View(): seq<u8>
      reads bytes
    {
      bytes[..]
    }

    predicate Contains(address: int, size: nat)
    {
      first <= address && address + size <= bytes.Length
    }

    /** All of `data` or none of it; refused exactly out of range or when the machine says so. */
    method Write(address: u32, data: seq<u8>) returns (ok: bool)
      requires Valid()
      modifies bytes, `refusals
      ensures ok ==> Contains(address, |data|) && View() == Splice(old(View()), address, data)
      ensures !ok ==> View() == old(View())
      ensures ok <==> Contains(address, |data|) && !(old(refusals) != [] && old(refusals)[0])
      ensures old(refusals) == [] ==> refusals == []
    {
      var refused := refusals != [] && refusals[0];
      refusals := if refusals == [] then [] else refusals[1..];
      if refused || !Contains(address, |data|) {
        return false;
      }
      forall k | 0 <= k < |data| {
        bytes[address + k] := data[k];
      }
      assert View() == Splice(old(View()), address, data);
      return true;
    }
  }
}
