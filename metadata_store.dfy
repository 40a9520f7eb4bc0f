/** `SessionMetadataStore` (packages/api/src/state/app_state.rs): the mirror of
    session metadata that the streaming plane consults for existence checks.
    The `Arc<RwLock<..>>` around the map is left out; the operations are
    sequential here. */
module MetadataStore {
  import opened SessionModel

  class SessionMetadataStore {
    var metadata: map<string, SessionMetadata>

    /** `SessionMetadataStore::new`: no ids at all. */
    constructor ()
      ensures metadata == map[]
      ensures forall id :: !SessionExists(id)
    {
      metadata := map[];
    }

    /** `session_exists`: a read of the map (it changes nothing). */
    predicate SessionExists(id: string)
      reads this
    {
      id in metadata
    }

    /** `update_metadata`: insert, overwriting any earlier entry for `id`; every
        other key keeps its entry. */
    method UpdateMetadata(id: string, m: SessionMetadata)
      modifies this`metadata
      ensures metadata == old(metadata)[id := m]
      ensures SessionExists(id) && metadata[id] == m
      ensures forall k :: k != id ==> (SessionExists(k) <==> old(SessionExists(k)))
      ensures forall k :: k != id && k in old(metadata) ==> metadata[k] == old(metadata[k])
    {
      metadata := metadata[id := m];
    }

    /** `remove_metadata`: drop `id`; an absent id is a silent no-op; every
        other key keeps its entry. */
    method RemoveMetadata(id: string)
      modifies this`metadata
      ensures metadata == old(metadata) - {id}
      ensures !SessionExists(id)
      ensures old(!SessionExists(id)) ==> metadata == old(metadata)
      ensures forall k :: k != id ==> (SessionExists(k) <==> old(SessionExists(k)))
      ensures forall k :: k != id && k in old(metadata) ==> metadata[k] == old(metadata[k])
    {
      metadata := metadata - {id};
    }
  }
}
