/** Enumerations that several records share. */
module Records {

  datatype TargetKind =
    | Executable | StaticLibrary | SharedLibrary | ModuleLibrary
    | InterfaceLibrary | ObjectLibrary | Utility | UnknownLibrary

  datatype StepKind = OutputRule | CustomTarget | PreBuild | PreLink | PostBuild

  datatype Visibility = Private | Public | Interface
}
