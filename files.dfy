/** The file system, reduced to the one file an operation touches. */
module Files {
  import opened Wrappers

  /** What `fs.readFileSync(path, 'utf8')` gives: the text, or the error it throws. */
  datatype Reading = NoEntry | Unreadable | Text(s: string)

  /**
   * One file on disk: its content (`None` when it does not exist) and whether
   * reading or writing it fails with an error other than "no such file"
   * (permissions, a directory in the way, a full disk).
   */
  class File {
    var content: Option<string>
    var readFails: bool
    var writeFails: bool

    constructor (content: Option<string>, readFails: bool, writeFails: bool)
      ensures this.content == content
      ensures this.readFails == readFails && this.writeFails == writeFails
    {
      this.content := content;
      this.readFails := readFails;
      this.writeFails := writeFails;
    }

    /** `fs.existsSync(path)`. */
    predicate Exists()
      reads this
    {
      content.Some?
    }

    /** `fs.readFileSync(path, 'utf8')`: a missing file is `ENOENT`, any other failure another error. */
    function Read(): (r: Reading)
      reads this
      ensures r.NoEntry? <==> content.None?
      ensures r.Text? <==> content.Some? && !readFails
      ensures r.Text? ==> content == Some(r.s)
    {
      if content.None? then NoEntry
      else if readFails then Unreadable
      else Text(content.value)
    }

    /** `fs.writeFileSync(path, text)`: the whole content is replaced, or the call throws and nothing changes. */
    method Write(text: string) returns (ok: bool)
      modifies this
      ensures ok == !old(writeFails)
      ensures content == if ok then Some(text) else old(content)
      ensures readFails == old(readFails) && writeFails == old(writeFails)
    {
      ok := !writeFails;
      if ok {
        content := Some(text);
      }
    }
  }
}
