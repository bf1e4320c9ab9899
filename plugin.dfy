/**
 * `NoteUploaderPlugin`: its one setting, the endpoint `url`, loaded by merging
 * the stored data over the defaults and saved after every edit in the
 * settings tab; and the ribbon action that builds a record and opens the
 * dialog.
 */
module Plugin {
  import opened Wrappers
  import opened Notes
  import opened Dialog

  datatype Settings = Settings(url: string)

  const DefaultSettings: Settings := Settings("url")

  /** What `loadData` returns: nothing stored, or an object whose `url` key may be missing. */
  datatype StoredData = StoredData(url: Option<string>)

  /** `Object.assign({}, DEFAULT_SETTINGS, stored)`: a stored `url` wins over the default. */
  function MergeSettings(stored: Option<StoredData>): (s: Settings)
    ensures stored.Some? && stored.value.url.Some? ==> s.url == stored.value.url.value
    ensures stored.None? || stored.value.url.None? ==> s == DefaultSettings
  {
    match stored
    case Some(StoredData(Some(url))) => Settings(url)
    case _ => DefaultSettings
  }

  /** What `saveData(this.settings)` stores. */
  function Persisted(s: Settings): StoredData
  {
    StoredData(Some(s.url))
  }

  /** Saving and loading again gives back the same settings. */
  lemma {:induction false} SaveLoadRoundTrip(s: Settings)
    ensures MergeSettings(Some(Persisted(s))) == s
  {
  }

  class NoteUploaderPlugin {
    var settings: Settings
    /** The plugin's data in the host's storage. */
    var store: Option<StoredData>

    /**
     * A plugin whose storage holds `stored`. The source leaves `settings`
     * unset until `loadSettings`; here it starts as the defaults.
     */
    constructor (stored: Option<StoredData>)
      ensures store == stored && settings == DefaultSettings
    {
      store := stored;
      settings := DefaultSettings;
    }

    /** `loadSettings`. */
    method LoadSettings()
      modifies this`settings
      ensures settings == MergeSettings(store)
    {
      settings := MergeSettings(store);
    }

    /** `saveSettings`. */
    method SaveSettings()
      modifies this`store
      ensures store == Some(Persisted(settings))
    {
      store := Some(Persisted(settings));
    }

    /** The settings tab's `onChange` handler for the "Upload url" field. */
    method EditUrl(value: string)
      modifies this`settings, this`store
      ensures settings == Settings(value)
      ensures store == Some(StoredData(Some(value)))
    {
      settings := settings.(url := value);
      SaveSettings();
    }

    /** The ribbon action: build the record and open a fresh dialog for it. */
    method UploadActiveFile(active: Option<ActiveFile>) returns (modal: UploadModal)
      ensures fresh(modal)
      ensures modal.note == AssembleNote(active) && modal.note.group == Null
      ensures modal.isOpen && modal.view == Form
      ensures modal.result == None && modal.submitted == []
    {
      modal := new UploadModal(AssembleNote(active));
      modal.Open();
    }
  }

  /** An edit in the settings tab survives a restart of the plugin. */
  method EditThenReload(stored: Option<StoredData>, value: string) returns (url: string)
    ensures url == value
  {
    var plugin := new NoteUploaderPlugin(stored);
    plugin.LoadSettings();
    plugin.EditUrl(value);
    var restarted := new NoteUploaderPlugin(plugin.store);
    restarted.LoadSettings();
    url := restarted.settings.url;
  }
}
