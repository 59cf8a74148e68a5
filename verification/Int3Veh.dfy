/** Globals by breakpoints: the target's first byte becomes INT 3, and a vectored exception handler moves the instruction
    pointer to the detour.  src/int3veh.cpp. */
module Int3Veh {
  import opened Words

  const INT3: byte := 0xCC

  const EXCEPTION_BREAKPOINT: int := 0x8000_0003
  const STATUS_SINGLE_STEP: int := 0x8000_0004

  datatype Disposition = ContinueExecution | ContinueSearch

  /** What the handler leaves in the context record. */
  datatype Handled = Handled(disposition: Disposition, ip: int, trap: bool)

  /** The module's global variables, and the code bytes. */
  class Globals {
    var mem: Mem
    /** g_active_veh_hooks. */
    var active: map<int, int>
    /** g_patched_bytes; entries are never erased. */
    var patchedBytes: map<int, byte>
    /** g_veh_hook_installed. */
    var installed: bool
    /** The code before the first hook. */
    ghost var original: Mem
    /** The enabled hook of each active target. */
    ghost var owner: map<int, Hook>

    constructor (m: Mem)
      ensures Valid() && Tidy() && mem == m && original == m && active == map[] && owner == map[]
    {
      mem, active, patchedBytes, installed, original, owner := m, map[], map[], false, m, map[];
    }

    /** A code byte is INT 3 where a hook is active, else original; saved bytes are original; every active target has
        one enabled hook; the handler is installed while a hook is active. */
    ghost predicate Valid()
      reads this
    {
      && (forall x {:trigger mem(x)} :: mem(x) == if x in active then INT3 else original(x))
      && active.Keys == owner.Keys
      && active.Keys <= patchedBytes.Keys
      && (forall x :: x in patchedBytes ==> patchedBytes[x] == original(x))
      && (active != map[] ==> installed)
    }

    /** Moreover the handler is gone when no hook is active, as long as the system has always removed it. */
    ghost predicate Tidy()
      reads this
    {
      installed <==> active != map[]
    }

    /** The critical section of Enable, and the installation of the handler. */
    method Activate(target: int, detour: int, ghost hook: Hook)
      requires Valid() && target !in active
      modifies this
      ensures Valid() && Tidy() && original == old(original)
      ensures active == old(active)[target := detour] && owner == old(owner)[target := hook]
      ensures mem(target) == 0xCC
    {
      active := active[target := detour];
      // an entry that is there already is kept
      if target !in patchedBytes {
        patchedBytes := patchedBytes[target := mem(target)];
      }
      mem := Set(mem, target, INT3);
      if !installed {
        installed := true;
      }
      owner := owner[target := hook];
      assert target in active;
    }

    /** The critical section of Disable. */
    method Deactivate(target: int)
      requires Valid() && target in active
      modifies this
      ensures Valid() && original == old(original) && installed == old(installed)
      ensures active == old(active) - {target} && owner == old(owner) - {target}
      ensures mem(target) == original(target)
    {
      owner := owner - {target};
      active := active - {target};
      mem := Set(mem, target, patchedBytes[target]);
    }

    /** VehHandler.  A breakpoint that the module has planted resumes at the detour of the hook that owns it. */
    method VehHandler(code: int, ip: int, trap: bool) returns (r: Handled)
      requires Valid()
      ensures forall b: Hook :: b.Known(this) && b.enabled && b.target == ip && code == 0x8000_0003 ==>
                r == Handled(ContinueExecution, b.detour, true)
      ensures code == 0x8000_0003 && mem(ip) != original(ip) ==>
                ip in owner && (owner[ip].Known(this) ==> r.ip == owner[ip].detour)
      ensures code == 0x8000_0003 ==>
                r == Handled(ContinueExecution, if ip in active then active[ip] else ip, true)
      ensures code == 0x8000_0004 ==> r == Handled(ContinueExecution, ip, trap)
      ensures code != 0x8000_0003 && code != 0x8000_0004 ==> r == Handled(ContinueSearch, ip, trap)
    {
      if code == EXCEPTION_BREAKPOINT {
        var next := ip;
        if ip in active {
          next := active[ip];
        }
        return Handled(ContinueExecution, next, true);
      }
      if code == STATUS_SINGLE_STEP {
        return Handled(ContinueExecution, ip, trap);
      }
      return Handled(ContinueSearch, ip, trap);
    }
  }

  class Hook {
    var target: int
    var detour: int
    var targetPatchPos: int
    var enabled: bool

    constructor ()
      ensures !enabled
    {
      target, detour, targetPatchPos, enabled := 0, 0, 0, false;
    }

    /** The object agrees with the globals: enabled, it owns its target and no other; else it owns none. */
    ghost predicate Known(g: Globals)
      reads this, g
    {
      && (enabled ==> target == targetPatchPos && target in g.owner && g.owner[target] == this
                      && target in g.active && g.active[target] == detour)
      && (forall x :: x in g.owner && g.owner[x] == this ==> enabled && x == target)
    }

    method Enable(g: Globals, newTarget: int, newDetour: int, executable: bool) returns (ok: bool)
      requires g.Valid() && Known(g)
      modifies this, g
      ensures g.Valid() && g.original == old(g.original) && Known(g)
      ensures ok == (!old(enabled) && executable && newTarget !in old(g.active))
      ensures ok ==> enabled && target == newTarget && detour == newDetour
      ensures ok ==> g.active == old(g.active)[newTarget := newDetour] && g.owner == old(g.owner)[newTarget := this]
      ensures ok ==> g.mem(newTarget) == 0xCC
      ensures !ok ==> enabled == old(enabled) && g.active == old(g.active) && g.owner == old(g.owner)
                      && g.mem == old(g.mem) && g.installed == old(g.installed)
      ensures old(g.Tidy()) ==> g.Tidy()
      ensures forall b: Hook :: old(allocated(b)) && b != this && old(b.Known(g)) ==> b.Known(g)
    {
      hide Globals.Valid, Globals.Tidy, Set;
      if enabled {
        return false;
      }
      if !executable {
        return false;
      }
      target, detour := newTarget, newDetour;
      if target in g.active {
        return false;
      }
      targetPatchPos := target;
      g.Activate(target, detour, this);
      enabled := true;
      return true;
    }

    /** removed: whether RemoveVectoredExceptionHandler succeeds. */
    method Disable(g: Globals, removed: bool) returns (ok: bool)
      requires g.Valid() && Known(g)
      modifies this, g
      ensures g.Valid() && g.original == old(g.original)
      ensures !old(enabled) ==> !ok && Known(g) && unchanged(this) && unchanged(g)
      ensures old(enabled) ==> g.active == old(g.active) - {old(target)} && g.owner == old(g.owner) - {old(target)}
      ensures old(enabled) ==> g.mem(old(target)) == g.original(old(target))
      ensures old(enabled) ==> ok == (g.active != map[] || removed)
      ensures ok ==> !enabled && Known(g)
      ensures old(enabled) && !ok ==> enabled && g.installed && g.active == map[]
      ensures old(g.Tidy()) && (ok || !old(enabled)) ==> g.Tidy()
      ensures forall b: Hook :: old(allocated(b)) && b != this && old(b.Known(g)) ==> b.Known(g)
    {
      if !enabled {
        return false;
      }
      if target !in g.active {
        return false;
      }
      g.Deactivate(target);
      var shouldRemoveVeh := g.active == map[];
      if shouldRemoveVeh {
        if !removed {
          return false;
        }
        g.installed := false;
      }
      enabled := false;
      target, detour, targetPatchPos := 0, 0, 0;
      return true;
    }
  }

  // ---------------------------------------------------------------------
  // Whole runs
  // ---------------------------------------------------------------------

  datatype Request = Enabling(hook: nat, target: int, detour: int, executable: bool) | Disabling(hook: nat)

  /** The targets and detours of the enabled objects. */
  type Enabled = map<nat, (int, int)>

  ghost predicate Taken(on: Enabled, x: int)
  {
    exists i :: i in on && on[i].0 == x
  }

  /** What a request is to do: a target has one enabled object at most, an object one target. */
  ghost function Next(on: Enabled, q: Request): Enabled
  {
    match q
    case Enabling(i, target, detour, executable) =>
      if i in on || !executable || Taken(on, target) then on else on[i := (target, detour)]
    case Disabling(i) => on - {i}
  }

  ghost function After(qs: seq<Request>): Enabled
  {
    if qs == [] then map[] else Next(After(qs[..|qs| - 1]), qs[|qs| - 1])
  }

  /** The objects are enabled as `on` says, and the module knows their targets and no others. */
  ghost predicate Shows(g: Globals, hooks: seq<Hook>, on: Enabled)
    reads g, hooks
  {
    && (forall i :: 0 <= i < |hooks| ==> hooks[i].Known(g) && (hooks[i].enabled <==> i in on))
    && (forall i :: i in on ==> i < |hooks| && on[i] == (hooks[i].target, hooks[i].detour))
    && (forall x :: x in g.owner ==> g.owner[x] in hooks)
  }

  /** Active targets are the targets of enabled objects. */
  lemma ActiveIsTaken(g: Globals, hooks: seq<Hook>, on: Enabled, x: int)
    requires g.Valid() && Shows(g, hooks, on)
    ensures x in g.active <==> Taken(on, x)
    ensures forall i :: i in on && on[i].0 == x ==> x in g.active && g.active[x] == on[i].1
  {
    if x in g.active {
      assert x in g.owner;
      var i :| 0 <= i < |hooks| && hooks[i] == g.owner[x];
      assert hooks[i].Known(g);
    }
    forall i | i in on && on[i].0 == x
      ensures x in g.active && g.active[x] == on[i].1
    {
      assert hooks[i].Known(g);
    }
  }

  method ServeEnabling(g: Globals, hooks: seq<Hook>, q: Request, ghost on: Enabled)
    requires g.Valid() && g.Tidy() && Shows(g, hooks, on) && q.hook < |hooks| && q.Enabling?
    requires forall i, j :: 0 <= i < j < |hooks| ==> hooks[i] != hooks[j]
    modifies g, hooks[q.hook]
    ensures g.Valid() && g.Tidy() && g.original == old(g.original) && Shows(g, hooks, Next(on, q))
  {
    hide Globals.Valid, Globals.Tidy, Taken;
    var h := hooks[q.hook];
    assert h.Known(g);
    assert forall j :: 0 <= j < |hooks| && j != q.hook ==> hooks[j] != h && hooks[j].Known(g);
    ActiveIsTaken(g, hooks, on, q.target);
    var ok := h.Enable(g, q.target, q.detour, q.executable);
  }

  method ServeDisabling(g: Globals, hooks: seq<Hook>, q: Request, ghost on: Enabled)
    requires g.Valid() && g.Tidy() && Shows(g, hooks, on) && q.hook < |hooks| && q.Disabling?
    requires forall i, j :: 0 <= i < j < |hooks| ==> hooks[i] != hooks[j]
    modifies g, hooks[q.hook]
    ensures g.Valid() && g.Tidy() && g.original == old(g.original) && Shows(g, hooks, Next(on, q))
  {
    hide Globals.Valid, Globals.Tidy, Taken;
    var h := hooks[q.hook];
    assert h.Known(g);
    assert forall j :: 0 <= j < |hooks| && j != q.hook ==> hooks[j] != h && hooks[j].Known(g);
    ghost var was := h.enabled;
    var ok := h.Disable(g, true);
    if was {
      assert ok;
    } else {
      assert on - {q.hook} == on;
    }
  }

  /** Serves any requests on any distinct objects, where the system always removes the handler: the objects end up as the
      requests say; the module's targets are theirs, a code byte is INT 3 exactly at the target of an enabled object and
      original elsewhere, and the handler is installed exactly while there is one. */
  method Serve(g: Globals, hooks: seq<Hook>, qs: seq<Request>)
    requires g.Valid() && g.Tidy() && Shows(g, hooks, map[])
    requires forall i, j :: 0 <= i < j < |hooks| ==> hooks[i] != hooks[j]
    requires forall q :: q in qs ==> q.hook < |hooks|
    modifies g, hooks
    ensures g.Valid() && g.Tidy() && g.original == old(g.original) && Shows(g, hooks, After(qs))
    ensures forall x :: x in g.active <==> Taken(After(qs), x)
    ensures forall i, x :: i in After(qs) && After(qs)[i].0 == x ==> x in g.active && g.active[x] == After(qs)[i].1
    ensures forall x {:trigger g.mem(x)} :: g.mem(x) == if Taken(After(qs), x) then 0xCC else g.original(x)
    ensures g.installed <==> After(qs) != map[]
  {
    hide Taken, Shows, Next;
    var k := 0;
    while k < |qs|
      invariant 0 <= k <= |qs|
      invariant g.Valid() && g.Tidy() && g.original == old(g.original) && Shows(g, hooks, After(qs[..k]))
    {
      assert qs[..k + 1][..k] == qs[..k] && qs[k] in qs;
      if qs[k].Enabling? {
        ServeEnabling(g, hooks, qs[k], After(qs[..k]));
      } else {
        ServeDisabling(g, hooks, qs[k], After(qs[..k]));
      }
      k := k + 1;
    }
    assert qs[..k] == qs;
    ServedAll(g, hooks, After(qs));
  }

  lemma ServedAll(g: Globals, hooks: seq<Hook>, on: Enabled)
    requires g.Valid() && g.Tidy() && Shows(g, hooks, on)
    ensures forall x :: x in g.active <==> Taken(on, x)
    ensures forall i, x :: i in on && on[i].0 == x ==> x in g.active && g.active[x] == on[i].1
    ensures forall x {:trigger g.mem(x)} :: g.mem(x) == if Taken(on, x) then INT3 else g.original(x)
    ensures g.installed <==> on != map[]
  {
    hide Taken, Shows;
    forall x
      ensures x in g.active <==> Taken(on, x)
      ensures forall i :: i in on && on[i].0 == x ==> x in g.active && g.active[x] == on[i].1
    {
      ActiveIsTaken(g, hooks, on, x);
    }
    NoneTaken(on);
    if on == map[] {
      assert forall x :: x !in g.active;
      assert g.active == map[];
    }
    if on != map[] {
      var i :| i in on;
      assert on[i].0 in g.active;
    }
  }

  lemma NoneTaken(on: Enabled)
    ensures on == map[] ==> forall x :: !Taken(on, x)
  {
  }
}
