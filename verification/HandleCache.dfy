/** The cache of module handles behind address lookups. */
module HandleCache {
  import opened Words

  datatype Sym = Sym(name: string, value: nat, size: nat, isTls: bool)

  /** A program header; `isLoad` marks PT_LOAD. */
  datatype Phdr = Phdr(isLoad: bool, vaddr: nat, memsz: nat)

  /** A loaded module. The symbol tables are what loading would give: the symbols in the order in which the lookup
      visits them, or `None` when loading fails. */
  datatype Module = Module(loadBias: nat, phdrs: seq<Phdr>, pathname: string, dynsym: Option<seq<Sym>>,
      symtab: Option<seq<Sym>>)

  /** `Dl_info`. */
  datatype Info = Info(fbase: nat, fname: string, symbol: Option<(string, nat)>)

  /** `xdl_elf_is_match` on values. */
  predicate InModule(m: Module, addr: nat) {
    addr >= m.loadBias && exists i :: 0 <= i < |m.phdrs| && InSegment(m.phdrs[i], addr - m.loadBias)
  }

  predicate InSegment(p: Phdr, vaddr: nat) { p.isLoad && p.vaddr <= vaddr < p.vaddr + p.memsz }

  /** `xdl_sym_is_match`: the section index plays no part, because its tests have no effect. */
  predicate SymMatches(s: Sym, offset: int) { !s.isTls && s.value <= offset < s.value + s.size }

  function FirstMatch(syms: seq<Sym>, offset: int): Option<Sym> {
    if syms == [] then None else if SymMatches(syms[0], offset) then Some(syms[0]) else FirstMatch(syms[1..], offset)
  }

  function MatchIn(table: Option<seq<Sym>>, offset: int): Option<Sym> {
    if table.None? then None else FirstMatch(table.value, offset)
  }

  /** What is known of an address in a module: .dynsym first, then .symtab. */
  function InfoOf(m: Module, addr: nat): Info {
    var d := MatchIn(m.dynsym, addr - m.loadBias);
    var s := if d.Some? then d else MatchIn(m.symtab, addr - m.loadBias);
    Info(m.loadBias, m.pathname, if s.None? then None else Some((s.value.name, m.loadBias + s.value.value)))
  }

  /** The first symbol that is not thread-local and whose extent, from its value up to but not including value plus
      size, holds the offset. */
  lemma {:induction false} FirstMatchIs(syms: seq<Sym>, offset: int)
    ensures match FirstMatch(syms, offset)
      case None => forall i :: 0 <= i < |syms| ==> (syms[i].isTls || !(0 <= offset - syms[i].value < syms[i].size))
      case Some(s) =>
        exists k :: 0 <= k < |syms| && syms[k] == s && !s.isTls && 0 <= offset - s.value < s.size
                    && forall i :: 0 <= i < k ==> (syms[i].isTls || !(0 <= offset - syms[i].value < syms[i].size))
  {
    if syms != [] && !SymMatches(syms[0], offset) {
      var rest := syms[1..];
      FirstMatchIs(rest, offset);
      forall i | 0 < i < |syms|
        ensures syms[i] == rest[i - 1]
      {
      }
      if FirstMatch(rest, offset).Some? {
        var s := FirstMatch(rest, offset).value;
        var k :| 0 <= k < |rest| && rest[k] == s && !s.isTls && 0 <= offset - s.value < s.size
          && forall i :: 0 <= i < k ==> (rest[i].isTls || !(0 <= offset - rest[i].value < rest[i].size));
        assert syms[k + 1] == s;
      }
    }
  }

  /** An address is in a module exactly if a loadable segment, moved by the load bias, holds it. */
  lemma InModuleIs(m: Module, addr: nat)
    ensures InModule(m, addr) <==>
      exists i :: 0 <= i < |m.phdrs| && m.phdrs[i].isLoad
        && 0 <= addr - (m.loadBias + m.phdrs[i].vaddr) < m.phdrs[i].memsz
  {
    if i :| 0 <= i < |m.phdrs| && m.phdrs[i].isLoad
            && 0 <= addr - (m.loadBias + m.phdrs[i].vaddr) < m.phdrs[i].memsz {
      assert InSegment(m.phdrs[i], addr - m.loadBias);
    }
  }

  /** The answer names the module, and the symbol by its run-time address: from .dynsym if that holds one, else
      from .symtab. Nothing is known of address 0. */
  lemma AnswerIs(mods: seq<Module>, addr: nat, m: Module)
    ensures Answer(mods, 0) == None
    ensures addr > 0 && FirstModule(mods, addr) == None ==> Answer(mods, addr) == None
    ensures addr > 0 && FirstModule(mods, addr) == Some(m) ==>
      var offset, a := addr - m.loadBias, Answer(mods, addr);
      var d := if m.dynsym.Some? then FirstMatch(m.dynsym.value, offset) else None;
      var s := if m.symtab.Some? then FirstMatch(m.symtab.value, offset) else None;
      && a.Some? && a.value.fbase == m.loadBias && a.value.fname == m.pathname
      && (d.Some? ==> a.value.symbol == Some((d.value.name, m.loadBias + d.value.value)))
      && (d.None? && s.Some? ==> a.value.symbol == Some((s.value.name, m.loadBias + s.value.value)))
      && (d.None? && s.None? ==> a.value.symbol == None)
  {
  }

  function FirstModule(mods: seq<Module>, addr: nat): Option<Module> {
    if mods == [] then None else if InModule(mods[0], addr) then Some(mods[0]) else FirstModule(mods[1..], addr)
  }

  /** The answer without any cache. */
  function Answer(mods: seq<Module>, addr: nat): Option<Info> {
    if addr == 0 || FirstModule(mods, addr).None? then None else Some(InfoOf(FirstModule(mods, addr).value, addr))
  }

  /** No address lies in two modules. */
  ghost predicate Disjoint(mods: seq<Module>) {
    forall i, j, addr: nat :: 0 <= i < j < |mods| && InModule(mods[i], addr) ==> !InModule(mods[j], addr)
  }

  lemma {:induction false} FirstModuleIs(mods: seq<Module>, addr: nat)
    ensures match FirstModule(mods, addr)
      case None => forall i :: 0 <= i < |mods| ==> !InModule(mods[i], addr)
      case Some(m) => InModule(m, addr) && exists i :: 0 <= i < |mods| && mods[i] == m
  {
    hide InModule;
    if mods != [] {
      FirstModuleIs(mods[1..], addr);
      if FirstModule(mods[1..], addr).Some? && !InModule(mods[0], addr) {
        var i :| 0 <= i < |mods[1..]| && mods[1..][i] == FirstModule(mods, addr).value;
        assert mods[i + 1] == FirstModule(mods, addr).value;
      }
      forall i | 0 < i < |mods|
        ensures mods[i] == mods[1..][i - 1]
      {
      }
    }
  }

  lemma OneModule(mods: seq<Module>, i: nat, j: nat, addr: nat)
    requires Disjoint(mods) && i < |mods| && j < |mods| && InModule(mods[i], addr) && InModule(mods[j], addr)
    ensures i == j
  {
  }

  /** Any module that matches is the one that the uncached lookup finds. */
  lemma OnlyModule(mods: seq<Module>, m: Module, addr: nat)
    requires Disjoint(mods) && m in mods && InModule(m, addr)
    ensures FirstModule(mods, addr) == Some(m)
  {
    hide InModule;
    FirstModuleIs(mods, addr);
    var i :| 0 <= i < |mods| && mods[i] == m;
    var j :| 0 <= j < |mods| && mods[j] == FirstModule(mods, addr).value;
    OneModule(mods, i, j, addr);
  }

  /** `xdl_t`. */
  class Handle {
    const mod: Module
    const next: Handle?
    var dynsymTryLoad: bool
    var symtabTryLoad: bool
    var dynsym: Option<seq<Sym>>
    var symtab: Option<seq<Sym>>

    constructor (m: Module, n: Handle?)
      ensures mod == m && next == n && Valid()
    {
      mod, next := m, n;
      dynsymTryLoad, symtabTryLoad, dynsym, symtab := false, false, None, None;
    }

    /** A table is what loading gives, from the first attempt on. */
    ghost predicate Valid()
      reads this
    {
      && dynsym == (if dynsymTryLoad then mod.dynsym else None)
      && symtab == (if symtabTryLoad then mod.symtab else None)
    }

    /** `xdl_elf_is_match`. */
    method IsMatch(addr: nat) returns (r: bool)
      ensures r == InModule(mod, addr)
    {
      if addr < mod.loadBias { return false; }
      var vaddr := addr - mod.loadBias;
      var i := 0;
      while i < |mod.phdrs|
        invariant 0 <= i <= |mod.phdrs| && forall k :: 0 <= k < i ==> !InSegment(mod.phdrs[k], vaddr)
      {
        var phdr := mod.phdrs[i];
        if phdr.isLoad {
          if phdr.vaddr <= vaddr && vaddr < phdr.vaddr + phdr.memsz {
            assert InSegment(mod.phdrs[i], vaddr);
            return true;
          }
        }
        i := i + 1;
      }
      r := false;
    }

    /** `xdl_sym_by_addr`: the table is loaded once. */
    method SymByAddr(addr: nat) returns (r: Option<Sym>)
      requires Valid()
      modifies this
      ensures Valid() && r == MatchIn(mod.dynsym, addr - mod.loadBias)
    {
      if !dynsymTryLoad {
        dynsymTryLoad := true;
        dynsym := mod.dynsym;
        if dynsym.None? { return None; }
      }
      if dynsym.None? { return None; }
      r := Scan(dynsym.value, addr - mod.loadBias);
    }

    /** `xdl_dsym_by_addr`. */
    method DsymByAddr(addr: nat) returns (r: Option<Sym>)
      requires Valid()
      modifies this
      ensures Valid() && r == MatchIn(mod.symtab, addr - mod.loadBias)
    {
      if !symtabTryLoad {
        symtabTryLoad := true;
        symtab := mod.symtab;
        if symtab.None? { return None; }
      }
      if symtab.None? { return None; }
      r := Scan(symtab.value, addr - mod.loadBias);
    }

    /** The end of `xdl_addr`: .dynsym first, then .symtab. */
    method Describe(addr: nat) returns (info: Info)
      requires Valid()
      modifies this
      ensures Valid() && info == InfoOf(mod, addr)
    {
      hide MatchIn;
      var sym := SymByAddr(addr);
      if sym.None? {
        sym := DsymByAddr(addr);
      }
      info := Info(mod.loadBias, mod.pathname,
                   if sym.None? then None else Some((sym.value.name, mod.loadBias + sym.value.value)));
    }

    method Scan(syms: seq<Sym>, offset: int) returns (r: Option<Sym>)
      ensures r == FirstMatch(syms, offset)
    {
      var i := 0;
      while i < |syms|
        invariant 0 <= i <= |syms| && FirstMatch(syms, offset) == FirstMatch(syms[i..], offset)
      {
        if SymMatches(syms[i], offset) { return Some(syms[i]); }
        i := i + 1;
      }
      r := None;
    }
  }

  /** `s` lists the handles from `h` along the links. */
  predicate Linked(h: Handle?, s: seq<Handle>)
    decreases |s|
  {
    if s == [] then h == null else h == s[0] && Linked(h.next, s[1..])
  }

  /** The cache variable of the caller, over modules that do not change. */
  class Cache {
    const mods: seq<Module>
    var head: Handle?
    ghost var handles: seq<Handle>
    /** What was passed to `xdl_close`. */
    var closed: seq<Handle>

    constructor (mods: seq<Module>)
      requires Disjoint(mods)
      ensures Valid() && handles == [] && this.mods == mods
    {
      this.mods, head, handles, closed := mods, null, [], [];
    }

    /** At most one handle per module, each in a consistent state. */
    ghost predicate Valid()
      reads this, handles
    {
      && Disjoint(mods) && Linked(head, handles)
      && (forall i :: 0 <= i < |handles| ==> handles[i].Valid() && handles[i].mod in mods)
      && (forall i, j :: 0 <= i < j < |handles| ==> handles[i].mod != handles[j].mod)
    }

    /** The loop of `xdl_addr` over the cached handles. */
    method Lookup(addr: nat) returns (handle: Handle?)
      requires Valid()
      ensures handle != null ==> handle in handles && InModule(handle.mod, addr)
      ensures handle == null ==> forall i :: 0 <= i < |handles| ==> !InModule(handles[i].mod, addr)
    {
      hide InModule, Disjoint;
      handle := head;
      ghost var k := 0;
      while handle != null
        invariant 0 <= k <= |handles| && Linked(handle, handles[k..])
        invariant forall i :: 0 <= i < k ==> !InModule(handles[i].mod, addr)
        decreases |handles| - k
      {
        assert handle == handles[k..][0] == handles[k];
        var match_ := handle.IsMatch(addr);
        if match_ { return; }
        handle := handle.next;
        assert handles[k..][1..] == handles[k + 1..];
        k := k + 1;
      }
      assert handles[k..] == [];
    }

    /** `xdl_open_by_addr`: the first module that matches, if memory suffices. */
    method OpenByAddr(addr: nat, memory: bool) returns (r: Option<Module>)
      ensures r == if memory && addr != 0 then FirstModule(mods, addr) else None
    {
      if addr == 0 { return None; }
      var i := 0;
      while i < |mods|
        invariant 0 <= i <= |mods| && FirstModule(mods, addr) == FirstModule(mods[i..], addr)
      {
        if InModule(mods[i], addr) {
          return if memory then Some(mods[i]) else None;
        }
        i := i + 1;
      }
      r := None;
    }

    /** `xdl_addr`: whatever is cached, the answer is the one from an empty cache. */
    method Addr(addr: nat, memory: bool) returns (r: Option<Info>)
      requires Valid()
      modifies this`head, this`handles, handles
      ensures Valid() && fresh((set h | h in handles) - (set h | h in old(handles)))
      ensures memory ==> r == Answer(mods, addr)
      ensures r.Some? ==> r == Answer(mods, addr)
      ensures handles == old(handles) || (|handles| == |old(handles)| + 1 && handles[1..] == old(handles)
        && FirstModule(mods, addr) == Some(handles[0].mod))
    {
      hide InModule, InfoOf, Disjoint, FirstModule;
      if addr == 0 { return None; }
      var handle := Lookup(addr);
      if handle == null {
        var m := OpenByAddr(addr, memory);
        if m.None? { return None; }
        FirstModuleIs(mods, addr);
        assert m.value in mods;
        handle := new Handle(m.value, head);
        head := handle;
        handles := [handle] + handles;
      } else {
        OnlyModule(mods, handle.mod, addr);
      }
      assert FirstModule(mods, addr) == Some(handle.mod);
      var info := handle.Describe(addr);
      r := Some(info);
    }

    /** `xdl_addr_clean`: closes each handle once. */
    method Clean()
      requires Valid()
      modifies this
      ensures Valid() && handles == [] && head == null && closed == old(closed) + old(handles)
      ensures forall i, j :: 0 <= i < j < |old(handles)| ==> old(handles)[i] != old(handles)[j]
    {
      hide Disjoint;
      var handle := head;
      ghost var k := 0;
      while handle != null
        invariant 0 <= k <= |handles| && handles == old(handles) && Linked(handle, handles[k..])
          && closed == old(closed) + handles[..k]
        decreases |handles| - k
      {
        assert handle == handles[k..][0] == handles[k] && handles[k..][1..] == handles[k + 1..];
        closed := closed + [handle];
        handle := handle.next;
        k := k + 1;
      }
      assert handles[k..] == [] && handles[..k] == handles;
      handles := [];
      head := null;
    }
  }
}
