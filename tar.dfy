/**
 * A tar archive seen as the list of headers and payloads archive/tar reads
 * and writes; the byte layout and the gzip layer around it are not modelled.
 */
module Tar {
  import Fs

  /**
   * One archive member: a directory header, a regular file with its
   * payload, or a header of any other type flag (symbolic link, device,
   * named pipe), which carries no payload.
   */
  datatype Entry =
    | Dir(name: string, mode: int)
    | Reg(name: string, mode: int, data: seq<Fs.byte>)
    | Other(name: string, mode: int)

  /**
   * How reading a stream ends after its complete members: at the end of the
   * archive, at a header `Next` cannot read, or inside the payload of a
   * regular file whose header was read, after `partial` bytes.
   */
  datatype Tail =
    | EndOfArchive
    | BadHeader
    | ShortPayload(name: string, mode: int, partial: seq<Fs.byte>)

  /** What tar.Reader yields from a gzip stream that opened. */
  datatype Stream = Stream(entries: seq<Entry>, tail: Tail)
}
