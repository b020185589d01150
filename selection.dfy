/**
 * `handle_file_selection()`: which page the viewer shows. The session state
 * and the page's URL query parameters are the fields of a `Session`; the
 * method updates them in place as the source updates `st.session_state` and
 * `st.query_params`. The error banner it shows for a missing file is not
 * modelled.
 */
module Selection {
  import opened Wrappers
  import opened Snapshot

  /** The page shown when nothing else can be. */
  const DefaultFile := "index.md"

  /** Python truthiness of `st.query_params.get("file")`: present and non-empty. */
  predicate Truthy(param: Option<string>) {
    param.Some? && param.value != ""
  }

  /** A `?file=` parameter names a file that exists. */
  predicate ValidParam(fs: FileSystem, param: Option<string>) {
    Truthy(param) && Exists(fs, param.value)
  }

  /**
   * The page `handle_file_selection` settles on, by case: the parameter when
   * it names an existing file, else the current selection when it exists,
   * else the default page.
   */
  function SelectionAfter(fs: FileSystem, selected: Option<string>, param: Option<string>): string {
    if ValidParam(fs, param) then param.value
    else if selected.Some? && Exists(fs, selected.value) then selected.value
    else DefaultFile
  }

  /**
   * The `?file=` parameter afterwards, by case: it is set to the default page
   * when the default is chosen and either there was no parameter or the
   * default page does not exist either; otherwise it is left alone.
   */
  function ParamAfter(fs: FileSystem, selected: Option<string>, param: Option<string>): Option<string> {
    if ValidParam(fs, param) || (selected.Some? && Exists(fs, selected.value)) then param
    else if !Truthy(param) || !Exists(fs, DefaultFile) then Some(DefaultFile)
    else param
  }

  class Session {
    /** `st.session_state.selected_file`; None while the attribute is not set. */
    var selectedFile: Option<string>
    /** `st.query_params.get("file")`; None while the URL has no `file` parameter. */
    var fileParam: Option<string>

    constructor (selected: Option<string>, param: Option<string>)
      ensures selectedFile == selected && fileParam == param
    {
      selectedFile := selected;
      fileParam := param;
    }

    /** `handle_file_selection()` */
    method HandleFileSelection(fs: FileSystem) returns (file: string)
      modifies this
      ensures selectedFile == Some(file)
      ensures file == SelectionAfter(fs, old(selectedFile), old(fileParam))
      ensures fileParam == ParamAfter(fs, old(selectedFile), old(fileParam))
    {
      var param := fileParam;
      if param.Some? && param.value != "" && Exists(fs, param.value) {
        selectedFile := param;
      } else if selectedFile.None? || !Exists(fs, selectedFile.value) {
        selectedFile := Some(DefaultFile);
        if param.None? || param.value == "" {
          fileParam := Some(DefaultFile);
        }
      }
      if !Exists(fs, selectedFile.value) {
        selectedFile := Some(DefaultFile);
        fileParam := Some(DefaultFile);
      }
      file := selectedFile.value;
    }
  }

  /** The page shown exists, unless it is the default page and that is missing too. */
  lemma SelectionExists(fs: FileSystem, selected: Option<string>, param: Option<string>)
    ensures var file := SelectionAfter(fs, selected, param);
      Exists(fs, file) || (file == DefaultFile && !Exists(fs, DefaultFile))
  {
  }

  /** A parameter naming an existing file always wins, and is kept as it is. */
  lemma ValidParamWins(fs: FileSystem, selected: Option<string>, param: Option<string>)
    requires ValidParam(fs, param)
    ensures SelectionAfter(fs, selected, param) == param.value
    ensures ParamAfter(fs, selected, param) == param
  {
  }

  /**
   * Afterwards the parameter names the page shown, or it names no existing
   * file: a stale `?file=` is left in the URL when the default page is
   * chosen in its place and exists.
   */
  lemma ParamAgreesOrStale(fs: FileSystem, selected: Option<string>, param: Option<string>)
    ensures var file, p := SelectionAfter(fs, selected, param), ParamAfter(fs, selected, param);
      p == Some(file) || !ValidParam(fs, p)
  {
    var file, p := SelectionAfter(fs, selected, param), ParamAfter(fs, selected, param);
    if ValidParam(fs, p) && p != param {
      assert p == Some(DefaultFile) && file == DefaultFile;
    }
  }

  /** Handling the selection again, on the state it leaves, changes nothing. */
  lemma {:induction false} HandleFileSelectionIdempotent(fs: FileSystem, selected: Option<string>, param: Option<string>)
    ensures var file, p := SelectionAfter(fs, selected, param), ParamAfter(fs, selected, param);
      SelectionAfter(fs, Some(file), p) == file && ParamAfter(fs, Some(file), p) == p
  {
    var file, p := SelectionAfter(fs, selected, param), ParamAfter(fs, selected, param);
    if !ValidParam(fs, param) && !(selected.Some? && Exists(fs, selected.value)) {
      assert file == DefaultFile;
      if Exists(fs, DefaultFile) && Truthy(param) {
        assert p == param;
      }
    }
  }
}
