/** The optional value the plugin's parser returns where the source returns `null`. */
module Options {

  datatype Option<+T> = None | Some(value: T)
}
