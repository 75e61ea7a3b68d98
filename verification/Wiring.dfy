// The ring and the store put together: answers of the ring satisfy what the store asks of an owner function.
module Wiring {
  import opened Redis
  import opened Store
  import opened HashRing
  import opened Meta

  // The owner of a key is what the ring answers for the hashed part of the key.
  ghost predicate OwnedByRing(cfg: Config, hash: string -> nat, replicas: nat, nodes: seq<string>)
  {
    forall key :: Answers(hash, replicas, nodes, HashedPart(key), cfg.owner(key))
  }

  // A ring with a node gives every key an instance, and all metadata of a path the same one.
  lemma RingWires(cfg: Config, w: World, hash: string -> nat, replicas: nat, nodes: seq<string>)
    requires cfg.stripeSize >= 1 && OwnedByRing(cfg, hash, replicas, nodes)
    requires replicas > 0 && nodes != [] && forall node :: node in nodes ==> node in w
    ensures Wired(cfg, w)
    ensures forall path {:trigger MetaClient(cfg, path)} :: (path != "" && path[0] != '}') ==>
      cfg.owner(Keys.ModeKey(path)) == MetaClient(cfg, path) == cfg.owner(Keys.ChildrenKey(path))
  {
    hide HashedPart, Answers, Owners, Keys.ModeKey, Keys.ChildrenKey, Keys.Prefix;
    OwnersAreNodes(hash, replicas, nodes);
    forall key
      ensures cfg.owner(key) in w
    {
      AnswerIsNode(hash, replicas, nodes, HashedPart(key), cfg.owner(key));
    }
    forall path | path != "" && path[0] != '}'
      ensures cfg.owner(Keys.ModeKey(path)) == MetaClient(cfg, path) == cfg.owner(Keys.ChildrenKey(path))
    {
      MetadataTogether(path);
      var part := HashedPart(Keys.Prefix(path));
      AnswersUnique(hash, replicas, nodes, part, cfg.owner(Keys.ModeKey(path)), cfg.owner(Keys.Prefix(path)));
      AnswersUnique(hash, replicas, nodes, part, cfg.owner(Keys.ChildrenKey(path)), cfg.owner(Keys.Prefix(path)));
    }
  }
}
