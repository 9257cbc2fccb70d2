/** What a client sees of names: the table, which inodes are in use, whether the name cache is
    on and whether the bitset of used inodes is loaded.  The caches themselves are not visible. */
module Naming {
  import opened ReturnCodes
  import opened Catalog

  /** `known` are the names that the client uses; the hash tells them apart. */
  datatype Names = Names(table: seq<string>, used: seq<bool>, cached: bool, loaded: bool, limit: nat,
                         known: set<string>)

  ghost predicate Sound(n: Names) {
    && |n.table| == |n.used| >= 3 && n.table[0] == n.table[1] == "" && Unique(n.table)
    && (forall i :: 0 <= i < |n.table| ==> n.table[i] == "" || n.table[i] in n.known)
    && (forall i :: 2 <= i < |n.table| && n.table[i] != "" ==> n.used[i])
  }

  /** The hash tells the names of `known` and the empty name apart. */
  ghost predicate Separates(h: string -> nat, known: set<string>) {
    forall a, b :: a in known + {""} && b in known + {""} && h(a) == h(b) ==> a == b
  }

  /** The inode that opening `name` for writing would find, or 0. */
  function Holder(n: Names, name: string): nat {
    if name == "" || |name| > n.limit then 0 else Scan(n.table, name, 2)
  }

  /** The inode that it would take otherwise, or 0. */
  function Spare(n: Names): nat { FreeFrom(n.used, 2) }

  function Create(n: Names, name: string): Lookup {
    if Holder(n, name) != 0 then Found(Holder(n, name))
    else if Spare(n) == 0 then Denied(FSFull)
    else if |name| > n.limit then Denied(RangeError)
    else Found(Spare(n))
  }

  function AfterCreate(n: Names, name: string): Names
    requires |n.table| == |n.used|
  {
    if Holder(n, name) != 0 || Spare(n) == 0 then n
    else n.(used := n.used[Spare(n) := true],
            table := if |name| > n.limit then n.table else n.table[Spare(n) := name])
  }

  function Find(n: Names, name: string): Lookup
    requires |n.table| == |n.used|
  {
    if name == "" then Denied(ArgError) else if |name| > n.limit then Denied(RangeError)
    else if Scan(n.table, name, 2) == 0 then Missed(n.table, n.used, n.loaded, name, |n.table|)
    else Found(Scan(n.table, name, 2))
  }

  /** The same inode is found, or neither finds one. */
  predicate Agree(a: Lookup, b: Lookup) {
    if a.Found? then a == b else !b.Found?
  }

  /** A name that inode `id` may be given: an unused inode gets none, and no name is given
      twice.  Taking the name from an inode that has none may fail while the cache is on. */
  ghost predicate Givable(n: Names, id: nat, name: string) {
    && name in n.known + {""}
    && (1 <= id < |n.table| ==>
          if name == "" then n.table[id] != "" || !n.cached
          else 2 <= id < |n.used| && n.used[id] && forall j :: 0 <= j < |n.table| && j != id ==> n.table[j] != name)
  }

  function RenameRc(n: Names, id: nat, name: string): Rc {
    if !(1 <= id < |n.table|) then ArgError
    else if |name| > n.limit && n.table[id] != name then RangeError else OK
  }

  function AfterRename(n: Names, id: nat, name: string): Names {
    if RenameRc(n, id, name) == OK then n.(table := n.table[id := name]) else n
  }

  /** Inode `id` lost its name and is free. */
  function Released(n: Names, id: nat): Names
    requires 1 <= id < |n.table| == |n.used|
  {
    n.(table := n.table[id := ""], used := n.used[id := false])
  }

  lemma SoundRename(n: Names, id: nat, name: string)
    requires Sound(n) && Givable(n, id, name)
    ensures Sound(AfterRename(n, id, name)) && |AfterRename(n, id, name).table| == |n.table|
  {
  }

  lemma SoundCreate(n: Names, name: string)
    requires Sound(n) && name in n.known + {""}
    ensures Sound(AfterCreate(n, name)) && |AfterCreate(n, name).table| == |n.table|
  {
  }

  lemma SoundReleased(n: Names, id: nat)
    requires Sound(n) && 1 <= id < |n.table|
    ensures Sound(Released(n, id)) && |Released(n, id).table| == |n.table|
  {
  }

  lemma SoundCached(n: Names, on: bool, loaded: bool)
    requires Sound(n)
    ensures Sound(n.(cached := on, loaded := loaded))
  {
  }

  // ----- what follows

  /** A file is found by the name it was created with, and other names find what they did. */
  lemma CreatedFound(n: Names, name: string, other: string)
    requires Sound(n) && name in n.known && name != "" && |name| <= n.limit && Create(n, name).Found?
    ensures var m := AfterCreate(n, name);
            Find(m, name) == Create(n, name) && (other != name ==> Agree(Find(m, other), Find(n, other)))
  {
    if Holder(n, name) == 0 {
      RenameScan(n.table, Spare(n), name, other);
    }
  }

  /** So it is after a rename, and the old name finds nothing. */
  lemma RenamedFound(n: Names, id: nat, name: string, other: string)
    requires Sound(n) && Givable(n, id, name) && RenameRc(n, id, name) == OK && name != "" && |name| <= n.limit
    requires name != n.table[id]
    ensures var m := AfterRename(n, id, name);
            && Find(m, name) == Found(id)
            && (n.table[id] != "" && |n.table[id]| <= n.limit ==> !Find(m, n.table[id]).Found?)
            && (other != name && other != n.table[id] ==> Agree(Find(m, other), Find(n, other)))
  {
    RenameScan(n.table, id, name, other);
  }
}
