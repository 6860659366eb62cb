module TypeNames {
  /** The DDS type name of a message: namespace::dds_::name_. */
  function CreateTypeName(namespace_: string, name: string): string {
    (if namespace_ != "" then namespace_ + "::" else "") + "dds_::" + name + "_"
  }
}
