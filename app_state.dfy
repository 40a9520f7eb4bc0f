/** `AppState::new` (packages/api/src/state/app_state.rs): the registry and the
    metadata mirror wired together. The `OnceLock` global is left out. */
module AppState {
  import opened Wrappers
  import opened Environment
  import opened MetadataStore
  import opened SessionHandler

  class AppState {
    const config: Config
    const sessionManager: SessionManager
    const sessionMetadataStore: SessionMetadataStore

    /** `AppState::new`: an empty registry whose mirror is this state's own
        (empty) store, so the two start in step. The `Arc` clone shares the
        store, which is one object here. */
    constructor (config: Config)
      ensures this.config == config && sessionManager.config == config
      ensures fresh(sessionManager) && fresh(sessionMetadataStore)
      ensures sessionManager.sessions == map[] && sessionMetadataStore.metadata == map[]
      ensures sessionManager.metadataStore == Some(sessionMetadataStore)
      ensures sessionManager.Valid() && sessionManager.MirrorInSync()
    {
      this.config := config;
      var manager := new SessionManager(config);
      var store := new SessionMetadataStore();
      manager.SetMetadataStore(store);
      this.sessionManager := manager;
      this.sessionMetadataStore := store;
    }
  }
}
