/**
 * The server side of `S3FileInput`: what the hidden input carries when the
 * widget is rendered, and what the submitted value turns into.
 *
 * `open` is `default_storage.open` and `url` is `default_storage.url`.
 */
module Forms {
  import opened Basics
  import opened PosixPath
  import opened Storages

  /**
   * What `value_from_datadict` returns: `None` (nothing submitted), `False`
   * (keep the initial file) or an opened file.
   */
  datatype WidgetValue = NoneValue | FalseValue | FileValue(file: File)

  /** The `value` `render` is given: a Django `File` or anything else. */
  datatype RenderValue = NotAFile | AFile(file: File)

  /** The three template slots `render` decides. */
  datatype Rendered = Rendered(fileUrl: string, fileName: string, inputValue: string)

  /** The widget class `AutoFileInput` instantiates. */
  datatype Widget = S3FileInput | ClearableFileInput

  /** The sentinel the hidden input carries for an existing file. */
  const Initial: string := "initial"

  /**
   * `S3FileInput.value_from_datadict`; `Err(filename)` where opening raises
   * something other than an `IOError`.
   */
  function ValueFromDatadict(data: map<string, string>, name: string, open: string -> Opened): (r: Result<WidgetValue, string>)
    ensures name !in data || data[name] == "" ==> r == Ok(NoneValue)
    ensures name in data && data[name] == Initial ==> r == Ok(FalseValue)
    ensures name in data && data[name] != "" && data[name] != Initial ==>
      match open(data[name])
      case Found(f) => r == Ok(FileValue(f))
      case Missing => r == Ok(FalseValue)
      case Suspicious => r.Err?
  {
    if name !in data || data[name] == "" then Ok(NoneValue)
    else if data[name] == Initial then Ok(FalseValue)
    else
      match open(data[name])
      case Found(f) => Ok(FileValue(f))
      case Missing => Ok(FalseValue)
      case Suspicious => Err(data[name])
  }

  /** Neither an empty submission nor the sentinel consults storage. */
  lemma ValueWithoutStorage(data: map<string, string>, name: string, open1: string -> Opened, open2: string -> Opened)
    requires name !in data || data[name] == "" || data[name] == Initial
    ensures ValueFromDatadict(data, name, open1) == ValueFromDatadict(data, name, open2)
    ensures ValueFromDatadict(data, name, open1).Ok? && !ValueFromDatadict(data, name, open1).value.FileValue?
  {
  }

  /** The value/file-name decision of `S3FileInput.render`. */
  function Render(value: RenderValue, url: string -> string): (r: Rendered)
    ensures r.inputValue == Initial <==> value.AFile? && url(value.file.name) != ""
    ensures r.inputValue == "" <==> !(value.AFile? && url(value.file.name) != "")
    ensures value.AFile? ==> r.fileName == Basename(value.file.name)
    ensures value.NotAFile? ==> r.fileName == "" && r.fileUrl == ""
    ensures NoSlash(r.fileName)
  {
    var fileUrl := if value.AFile? then url(value.file.name) else "";
    var fileName := if value.AFile? then Basename(value.file.name) else "";
    Rendered(fileUrl, fileName, if fileUrl != "" then Initial else "")
  }

  /**
   * Submitting the hidden value `render` produced, unchanged, gives `False`
   * (keep the file) for a file with a URL and `None` otherwise, whatever the storage holds.
   */
  lemma RenderThenSubmit(value: RenderValue, url: string -> string, name: string, open: string -> Opened)
    ensures var submitted := map[name := Render(value, url).inputValue];
      ValueFromDatadict(submitted, name, open) ==
        Ok(if value.AFile? && url(value.file.name) != "" then FalseValue else NoneValue)
  {
  }

  /** `AutoFileInput`: the S3 widget when `AWS_SECRET_ACCESS_KEY` is set to a non-empty value. */
  function AutoFileInput(secretAccessKey: Option<string>): (w: Widget)
    ensures w == S3FileInput <==> secretAccessKey.Some? && secretAccessKey.value != ""
    ensures w == ClearableFileInput <==> secretAccessKey.None? || secretAccessKey.value == ""
  {
    if secretAccessKey.Some? && secretAccessKey.value != "" then S3FileInput else ClearableFileInput
  }
}
