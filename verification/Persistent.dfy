/**
  The system data that components/hcfota/source/hcfota.c keeps in persistent memory, of which an upgrade
  uses the "doing" flag and the firmware version, over the node operations of
  components/kernel/source/drivers/persistentmem/persistent-memory.c.
 */
module Persistent {
  import opened Options

  datatype Sysdata = Sysdata(version: nat, doing: bool)

  class PersistentMemory {
    /** Whether opening, creating and writing succeed whenever the driver allows them. */
    const works: bool
    /** Cleared by PERSISTENTMEM_IOCTL_MARK_INVALID; the driver then refuses every operation on nodes. */
    var valid: bool
    /** The system data node, once it has been created. */
    var node: Option<Sysdata>

    constructor (works: bool, node: Option<Sysdata>)
      ensures this.works == works && this.node == node && valid
    {
      this.works, this.node, valid := works, node, true;
    }

    predicate Doing()
      reads this
    {
      node.Some? && node.value.doing
    }

    /** Reading finds the node and nothing stands in the way. */
    predicate Readable()
      reads this
    {
      works && valid && node.Some?
    }

    method Open() returns (ok: bool)
      ensures works ==> ok
    {
      ok := *;
      ok := ok || works;
    }

    /** PERSISTENTMEM_IOCTL_NODE_GET */
    method Get() returns (r: Option<Sysdata>)
      ensures Readable() ==> r == node
      ensures r.Some? ==> valid && r == node
    {
      var ok := *;
      r := if valid && (ok || works) then node else None;
    }

    /** PERSISTENTMEM_IOCTL_NODE_CREATE; a new node may hold anything. */
    method Create() returns (ok: bool)
      modifies `node
      ensures works && valid && old(node).None? ==> ok
      ensures if ok then valid && old(node).None? && node.Some? else node == old(node)
    {
      ok := *;
      ok := valid && node.None? && (ok || works);
      if ok {
        var version: nat, doing: bool := *, *;
        node := Some(Sysdata(version, doing));
      }
    }

    /** PERSISTENTMEM_IOCTL_NODE_PUT of one field. */
    method Put(changed: Sysdata -> Sysdata) returns (ok: bool)
      modifies `node
      ensures old(Readable()) ==> ok
      ensures ok ==> valid && old(node).Some? && node == Some(changed(old(node).value))
      ensures !ok ==> node == old(node)
    {
      ok := *;
      ok := valid && node.Some? && (ok || works);
      if ok {
        node := Some(changed(node.value));
      }
    }

    /**
      `hcfota_set_doing`: 0 exactly when the flag is stored, in a node made for it if there was none; the
      version that was stored is kept.  It always succeeds on working memory that is not marked invalid,
      and never on one that is.
     */
    method SetDoing(on: bool) returns (rc: int)
      modifies `node
      ensures rc == 0 || rc == -1
      ensures works && valid ==> rc == 0
      ensures !valid ==> rc == -1
      ensures rc == 0 ==> node.Some? && node.value.doing == on
      ensures rc == 0 && old(node).Some? ==> node.value.version == old(node).value.version
      ensures rc == -1 && old(node).Some? ==> node == old(node)
      ensures !valid ==> node == old(node)
    {
      var ok := Open();
      if !ok {
        return -1;
      }
      var sysdata := Get();
      if sysdata.None? {
        ok := Create();
        if !ok {
          return -1;
        }
      }
      ok := Put((d: Sysdata) => d.(doing := on));
      rc := if ok then 0 else -1;
    }

    /** `hcfota_set_sysdata_version`, which needs the node to be there. */
    method SetVersion(v: nat) returns (rc: int)
      modifies `node
      ensures rc == 0 || rc == -1
      ensures old(Readable()) ==> rc == 0
      ensures rc == 0 ==> old(node).Some? && node == Some(Sysdata(v, old(node).value.doing))
      ensures rc == -1 ==> node == old(node)
      ensures !valid ==> rc == -1
    {
      var ok := Open();
      if !ok {
        return -1;
      }
      ok := Put((d: Sysdata) => d.(version := v));
      rc := if ok then 0 else -1;
    }

    /** `hcfota_persistentmem_mark_invalid`: what is stored stays, but cannot be read or written any more. */
    method MarkInvalid()
      modifies `valid
      ensures works ==> !valid
      ensures !old(valid) ==> !valid
    {
      var ok := Open();
      if ok {
        valid := false;
      }
    }

    /** `sys_get_sysdata`, for the version. */
    method StoredVersion() returns (v: Option<nat>)
      ensures Readable() ==> v == Some(node.value.version)
      ensures v.Some? ==> node.Some? && v.value == node.value.version
      ensures !valid ==> v.None?
    {
      v := None;
      var ok := Open();
      if ok {
        var sysdata := Get();
        if sysdata.Some? {
          v := Some(sysdata.value.version);
        }
      }
    }
  }
}
