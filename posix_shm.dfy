// The host's named POSIX shared-memory objects, reduced to what the producer and
// the VM rely on: names, sizes, exclusive creation and removal. Failures the
// host may report for reasons outside this model (permissions, limits) are
// parameters of each call.

module PosixShm {

  class Namespace {
    /** Each existing object's name and size in bytes. */
    var objects: map<string, nat>

    constructor (objects: map<string, nat>)
      ensures this.objects == objects
    {
      this.objects := objects;
    }

    /** shm_unlink: removes the name; fails when no object has it or the host refuses. */
    method Unlink(name: string, refused: bool) returns (ok: bool)
      modifies this
      ensures ok == (name in old(objects) && !refused)
      ensures objects == if ok then old(objects) - {name} else old(objects)
    {
      ok := name in objects && !refused;
      if ok {
        objects := objects - {name};
      }
    }

    /** shm_open with O_CREAT | O_EXCL: creates an empty object; fails when the name
        is taken or the host refuses. */
    method CreateExclusive(name: string, refused: bool) returns (ok: bool)
      modifies this
      ensures ok == (name !in old(objects) && !refused)
      ensures objects == if ok then old(objects)[name := 0] else old(objects)
    {
      ok := name !in objects && !refused;
      if ok {
        objects := objects[name := 0];
      }
    }

    /** ftruncate on the descriptor of object `name`. */
    method Truncate(name: string, size: nat, refused: bool) returns (ok: bool)
      requires name in objects
      modifies this
      ensures ok == !refused
      ensures objects == if ok then old(objects)[name := size] else old(objects)
    {
      ok := !refused;
      if ok {
        objects := objects[name := size];
      }
    }
  }
}
