/**
 * The error values of the proxy package and of the library calls it makes.
 * Go returns `error` interface values; here each distinct error the package
 * can return is a constructor of one datatype, compared by value as the Go
 * code compares its sentinel errors (`er != io.EOF`).
 */
module Errors {

  /** Why strconv.Atoi rejected its input (strconv.ErrSyntax / strconv.ErrRange). */
  datatype NumErrorKind = ErrSyntax | ErrRange

  datatype Error =
    /** *strconv.NumError from strconv.Atoi, carrying the text it was given. */
    | NumError(num: string, kind: NumErrorKind)
    /** errIp: "bad ip format" */
    | ErrIp
    /** errAddr: "bad addr format" */
    | ErrAddr
    /** errPort: "bad port format" */
    | ErrPort
    /** errTimeout: "timeout must be greater than 0" */
    | ErrTimeout
    /** io.EOF, the clean end of a stream */
    | EOF
    /** io.ErrShortWrite */
    | ErrShortWrite
    /** errInvalidWrite: "invalid write result" */
    | ErrInvalidWrite
    /** "<name> is already running", from Proxy.Run */
    | AlreadyRunning(name: string)
    /** "<name> is already done", from Proxy.Stop */
    | AlreadyDone(name: string)
    /** "proxy: <name> exists", from Manager.add */
    | ProxyExists(name: string)
    /** "proxy: <name> dose not exists", from Manager.remove */
    | ProxyNotExists(name: string)
    /** Any other error reported by the operating system or a peer
        (a failed read, write or listen); `code` only tells them apart. */
    | IoFailure(code: int)

  datatype Option<+T> = None | Some(value: T)

  datatype Result<+T> = Ok(value: T) | Err(error: Error)
}
