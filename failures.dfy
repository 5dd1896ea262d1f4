/**
 * The ways a run of the tool stops early. In the program each of these is a
 * `panic!` or a failed `unwrap` that ends the process; here each is a value.
 */
module Failures {

  datatype Panic =
    | SourceNotDirectory             // the source path is not a directory
    | InvalidOption(option: string)  // an option piece is not `key=value`
    | MissingSize                    // no `size` key in the option map
    | InvalidWidth(text: string)     // the first `x`-piece of `size` is not a u32
    | MissingHeight                  // `size` has no second `x`-piece to index
    | InvalidHeight(text: string)    // the second `x`-piece of `size` is not a u32
    | InvalidPercentage(text: string) // the text before `%` is not an f32 literal
    | WalkFailed                     // the directory walk yielded an error entry
}
