/** GLib errors as the daemon builds them: the two error domains, the
    daemon's own error codes, errno errors and the getline classification. */
module GErrors {
  import opened CStrings

  /** A `gint`: the width of `GError.code`. */
  newtype Int32 = x: int | -0x8000_0000 <= x < 0x8000_0000

  /** A `GError`: the domain (as the string its quark stands for), the code
      and the message. */
  datatype GError = GError(domain: CString, code: Int32, message: CString)

  /** The daemon's own error quark. The code that builds these errors names
      it `VARNISHLOG_BUFFER_QUARK` (src/errors.c) or `ACADEMIA_VARNISHLOG_QUARK`
      (src/varnishlog.c); neither function behind them is defined, so both are
      taken to be `varnishlog_buffer_quark`, "varnishlog-buffer"
      (src/errors.c:14-16). */
  const BufferDomain: CString := "varnishlog-buffer"
  /** The quark used for errors that wrap `errno`. `ACADEMIA_VARNISHLOG_ERRNO_QUARK`
      names an undefined function; it is taken to be `errno_quark`, "errno"
      (src/errors.c:18-20). */
  const ErrnoDomain: CString := "errno"

  /** Codes of the daemon's own domain, in the order the enumeration of
      include/errors.h lists them; src/errors.c's `VARNISHLOG_BUFFER_ERROR_EOF`
      and `VARNISHLOG_BUFFER_ERROR_UNSPEC` are taken to be these two. */
  const ErrorEof: Int32 := 0
  const ErrorUnspec: Int32 := 1

  /** `EINTR` on Linux. */
  const EINTR: Int32 := 4

  /** A saved `errno` value together with the C library's description of it
      (`strerror`), which this model does not compute. */
  datatype Errno = Errno(code: Int32, text: CString)

  /** `g_set_error_errno`: domain errno, code the saved errno, message its
      description. */
  function ErrnoError(e: Errno): (r: GError)
    ensures r.domain == ErrnoDomain && r.code == e.code && r.message == e.text
  {
    GError(ErrnoDomain, e.code, e.text)
  }

  /** `set_error_eof`. */
  function PrematureEof(): (r: GError)
    ensures r.domain == BufferDomain && r.code == ErrorEof
    ensures r.message == "Premature end of file"
  {
    GError(BufferDomain, ErrorEof, "Premature end of file")
  }

  /** `set_error_unspec`. */
  function Unspecified(): (r: GError)
    ensures r.domain == BufferDomain && r.code == ErrorUnspec
    ensures r.message == "Unspecified error"
  {
    GError(BufferDomain, ErrorUnspec, "Unspecified error")
  }

  /** `set_gerror_getline`: the error recorded for a failed `getline`, given
      the `errno` it left (code 0 meaning none) and whether the stream is at
      end of file. */
  function GetlineError(errno: Errno, atEof: bool): (r: GError)
    ensures errno.code != 0 ==> r == ErrnoError(errno)
    ensures errno.code == 0 && atEof ==> r == PrematureEof()
    ensures errno.code == 0 && !atEof ==> r == Unspecified()
    ensures r.domain == ErrnoDomain <==> errno.code != 0
  {
    if errno.code != 0 then ErrnoError(errno)
    else if atEof then PrematureEof()
    else Unspecified()
  }
}
