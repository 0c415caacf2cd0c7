/** An optional value: `None` stands for Qt's "no value" (an invalid
    QVariant or QModelIndex) wherever the model needs one. */
module Options {

  datatype Option<+T> = None | Some(value: T)
}
