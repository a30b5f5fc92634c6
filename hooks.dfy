/**
 * The hooks of the app (src/Hooks.php): the Content-Security-Policy frame
 * sources and the open handlers the file manager gets for editable MIME types.
 */
module Hooks {
  import opened Php

  /** csp_frame_src: the configured Collabora server, when one is set. */
  function CspFrameSrc(server: Option<string>): (sources: seq<string>)
    ensures |sources| <= 1
    ensures sources != [] <==> OptTruthy(server)
    ensures forall s :: s in sources ==> Some(s) == server
  {
    if OptTruthy(server) then [server.value] else []
  }

  /** One action of the discovery document, keyed by MIME type. */
  datatype Action = Action(name: Option<string>, ext: string, urlsrc: string)

  /** The open handler: the editor's menuaction and the MIME types it edits. */
  datatype EditorLink = EditorLink(menuaction: string, mime: map<string, Action>)

  const EditorAction := "collabora.EGroupware\\collabora\\Ui.editor"

  /** An action the handler keeps: its name is "edit". */
  predicate IsEdit(a: Action) {
    a.name == Some("edit")
  }

  /**
   * getEditorLink: every discovery entry whose name is not "edit" is unset, the
   * rest kept unchanged. None when discovery throws.
   */
  method GetEditorLink(discovery: Option<map<string, Action>>) returns (link: Option<EditorLink>)
    ensures link.None? <==> discovery.None?
    ensures link.Some? ==> link.value.menuaction == EditorAction
    ensures link.Some? ==> forall m :: m in link.value.mime <==> m in discovery.value && IsEdit(discovery.value[m])
    ensures link.Some? ==> forall m :: m in link.value.mime ==> link.value.mime[m] == discovery.value[m]
  {
    if discovery.None? {
      return None;
    }
    var discover := discovery.value;
    var pending := discover.Keys;
    while pending != {}
      invariant pending <= discovery.value.Keys
      invariant forall m :: m in discover <==> m in discovery.value && (m in pending || IsEdit(discovery.value[m]))
      invariant forall m :: m in discover ==> discover[m] == discovery.value[m]
      decreases pending
    {
      var m :| m in pending;
      if !IsEdit(discover[m]) {
        discover := discover - {m};
      }
      pending := pending - {m};
    }
    return Some(EditorLink(EditorAction, discover));
  }
}
