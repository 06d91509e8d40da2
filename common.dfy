/** Values shared by every part of the converter: optional values, the
    exceptions the converter raises, and results that carry either. */
module Common {

  datatype Option<T> = None | Some(value: T)

  /** One constructor per exception the converter can raise. */
  datatype Error =
    | MalformedEmbed(line: string)   // `raise Exception(line)` when an embed line does not parse
    | FileNotFound(name: string)     // find_file found no entry, or open() found no file
    | RecursionLimit                 // the interpreter's RecursionError under cyclic embeds
    | NoFirstLine                    // get_title indexing the lines of an empty text

  datatype Result<T> = Ok(value: T) | Err(error: Error)
}
