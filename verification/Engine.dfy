/**
  The emulation engine as a trusted machine: page-granular mapped memory with
  protection bits.  Its calls refuse what Unicorn refuses and then change nothing.
*/
module Engine {
  import Bytes
  import opened Results

  const ENGINE_PAGE := 0x1000
  const ADDRESS_LIMIT := 0x1_0000_0000_0000_0000
  const PROT_ALL := 7
  const PROT_READ_WRITE := 3

  /** prot gives the permission bits of every mapped address. */
  datatype Engine = Engine(prot: int -> Option<int>, data: Bytes.Mem) {

    predicate Maps(a: int) {
      prot(a).Some?
    }

    predicate AllMapped(addr: int, size: int) {
      forall a | addr <= a < addr + size :: Maps(a)
    }

    predicate NoneMapped(addr: int, size: int) {
      forall a | addr <= a < addr + size :: !Maps(a)
    }

    predicate PageRange(addr: int, size: int) {
      0 <= addr && addr % ENGINE_PAGE == 0 && size % ENGINE_PAGE == 0 && addr + size <= ADDRESS_LIMIT
    }

    /** This engine with the protection of a range replaced. */
    function WithProt(addr: int, size: int, p: Option<int>): (r: Engine)
      ensures forall a :: r.prot(a) == if addr <= a < addr + size then p else prot(a)
      ensures r.data == data
    {
      this.(prot := (a: int) => if addr <= a < addr + size then p else prot(a))
    }

    /** New pages read as zero. */
    function MemMap(addr: int, size: int, perms: int): (r: Result<Engine>)
      ensures r.Ok? ==> forall a :: r.value.prot(a) == if addr <= a < addr + size then Some(perms) else prot(a)
    {
      if size > 0 && PageRange(addr, size) && 0 <= perms <= PROT_ALL && NoneMapped(addr, size)
      then Ok(WithProt(addr, size, Some(perms))
              .(data := (a: int) => if addr <= a < addr + size then 0 else data(a)))
      else Err(EngineError)
    }

    /** An empty range is accepted and ignored. */
    function MemUnmap(addr: int, size: nat): (r: Result<Engine>)
      ensures r.Ok? ==> forall a :: r.value.prot(a) == if addr <= a < addr + size then None else prot(a)
    {
      if size == 0 then Ok(this)
      else if PageRange(addr, size) && AllMapped(addr, size) then Ok(WithProt(addr, size, None))
      else Err(EngineError)
    }

    function MemProtect(addr: int, size: nat, perms: int): (r: Result<Engine>)
      ensures r.Ok? ==> forall a :: r.value.prot(a) == if addr <= a < addr + size then Some(perms) else prot(a)
    {
      if size == 0 then Ok(this)
      else if PageRange(addr, size) && 0 <= perms <= PROT_ALL && AllMapped(addr, size)
      then Ok(WithProt(addr, size, Some(perms)))
      else Err(EngineError)
    }

    function MemRead(addr: int, size: nat): Result<seq<Bytes.byte>> {
      if AllMapped(addr, size) then Ok(Bytes.Load(data, addr, size)) else Err(EngineError)
    }

    function MemWrite(addr: int, bs: seq<Bytes.byte>): (r: Result<Engine>)
      ensures r.Ok? ==> r.value.prot == prot
    {
      if AllMapped(addr, |bs|) then Ok(this.(data := Bytes.Store(data, addr, bs))) else Err(EngineError)
    }
  }
}
