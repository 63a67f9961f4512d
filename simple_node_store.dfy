// The in-memory node store: a registry of named collections, with a fallback
// that loads an unregistered name as a document.

module SimpleNodeStore {
  import opened Base

  /** A collection the node factory made. */
  class NodeCollection {
    const name: string

    constructor (name: string)
      ensures this.name == name
    {
      this.name := name;
    }
  }

  class SimpleNodeStore {
    /** The registry: collection name to collection. */
    var docs: map<string, NodeCollection>

    constructor ()
      ensures docs == map[]
    {
      docs := map[];
    }

    /** create: a new collection from the node factory, registered under its
      * name in place of any earlier one. */
    method Create(name: string) returns (coll: NodeCollection)
      modifies this
      ensures fresh(coll) && coll.name == name
      ensures docs == old(docs)[name := coll]
    {
      coll := new NodeCollection(name);
      docs := docs[name := coll];
    }

    /** drop: an unregistered name is an error; a registered one is removed,
      * and nothing else. */
    method Drop(name: string) returns (r: Result<()>)
      modifies this
      ensures name !in old(docs) ==> r == Err(DocumentError) && docs == old(docs)
      ensures name in old(docs) ==> r == Ok(()) && docs == old(docs) - {name}
    {
      if name !in docs {
        return Err(DocumentError);
      }
      docs := docs - {name};
      r := Ok(());
    }

    /** lookup: a registered collection is returned as it is. Otherwise the
      * name is read as a document URI; `loaded` is the collection of the
      * document built from it, or None when reading fails. A loaded
      * collection is registered under the name. */
    method Lookup(name: string, loaded: Option<NodeCollection>) returns (r: Result<NodeCollection>)
      modifies this
      ensures name in old(docs) ==> r == Ok(old(docs)[name]) && docs == old(docs)
      ensures name !in old(docs) && loaded.None? ==> r == Err(DocumentError) && docs == old(docs)
      ensures name !in old(docs) && loaded.Some? ==>
                r == Ok(loaded.value) && docs == old(docs)[name := loaded.value]
    {
      if name in docs {
        return Ok(docs[name]);
      }
      if loaded.None? {
        return Err(DocumentError);
      }
      docs := docs[name := loaded.value];
      r := Ok(loaded.value);
    }

    /** makeDir is not supported. */
    method MakeDir(path: string) returns (r: Result<()>)
      ensures r == Err(OperationNotSupported)
    {
      r := Err(OperationNotSupported);
    }
  }

  /** A name looked up after it was created finds that very collection, and
    * no I/O happens for it. */
  method CreateThenLookup(store: SimpleNodeStore, name: string, loaded: Option<NodeCollection>)
      returns (created: NodeCollection, found: Result<NodeCollection>)
    modifies store
    ensures found == Ok(created) && store.docs == old(store.docs)[name := created]
  {
    created := store.Create(name);
    found := store.Lookup(name, loaded);
  }

  /** Dropping a name just created restores the registry without it. */
  method CreateThenDrop(store: SimpleNodeStore, name: string) returns (r: Result<()>)
    modifies store
    ensures r == Ok(()) && store.docs == old(store.docs) - {name}
  {
    var _ := store.Create(name);
    r := store.Drop(name);
  }
}
